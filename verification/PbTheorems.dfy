/** The round trip from the caller's side, and its converse: two valid structs
    encode to the same bytes exactly when they carry the same message. */
module PbTheorems {
  import opened Basics
  import opened PbVarint
  import opened PbTypes
  import opened PbEncodeSpec
  import opened PbDecodeSpec
  import opened PbValid
  import opened PbRoundTrip
  import opened PbStream
  import opened PbEncoder
  import opened PbDefaults

  // ---- Valid structs can always be encoded -------------------------------

  lemma {:induction false} ValueEncodes(f: Field, v: Value)
    requires WellFormedField(f) && ValidValue(f, v)
    ensures EncodeValue(f, v).Some?
    decreases f, 0
  {
    if Packable(f.l) {
      IntRoundTrip(f, v, v, []);
    } else if f.l.Submessage? {
      MessageEncodes(f.ptr.fields, v.m, 0);
    }
  }

  lemma {:induction false} ItemsEncode(f: Field, items: seq<Value>)
    requires WellFormedField(f) && forall i :: 0 <= i < |items| ==> ValidValue(f, items[i])
    ensures EncodeItems(f, items).Some? && EncodeTagged(f, items).Some?
    decreases f, 1, |items|
  {
    if items != [] {
      ValueEncodes(f, items[0]);
      ItemsEncode(f, items[1..]);
    }
  }

  lemma {:induction false} FieldEncodes(f: Field, slot: Slot)
    requires WellFormedField(f) && ValidSlot(f, slot)
    ensures EncodeField(f, slot).Some?
    decreases f, 2
  {
    match f.h {
      case Required => ValueEncodes(f, slot.v);
      case Optional => if !Omitted(f, slot) { ValueEncodes(f, slot.v); }
      case Repeated =>
        var n := Entries(f, slot);
        ItemsEncode(f, slot.items[..n]);
        assert EncodeArray(f, slot.items, n).Some?;
      case Oneof => if slot.which == f.tag { ValueEncodes(f, slot.v); }
    }
  }

  lemma OneMoreEncodes(fields: seq<Field>, m: Message, k: nat)
    requires k < |fields| && EncodeField(fields[k], SlotAt(m, SlotIndex(fields, k))).Some?
    requires EncodeFrom(fields, m, k + 1).Some?
    ensures EncodeFrom(fields, m, k).Some?
  {}

  lemma {:induction false} MessageEncodes(fields: seq<Field>, m: Message, k: nat)
    requires WellFormed(fields) && ValidMessage(fields, m) && k <= |fields|
    ensures EncodeFrom(fields, m, k).Some?
    decreases fields, |fields| - k
  {
    if k < |fields| {
      assert WellFormedField(fields[k]) && ValidSlot(fields[k], m[SlotIndex(fields, k)]);
      FieldEncodes(fields[k], m[SlotIndex(fields, k)]);
      MessageEncodes(fields, m, k + 1);
      OneMoreEncodes(fields, m, k);
    }
  }

  /** Encoding a valid struct succeeds, and decoding the bytes into any memory succeeds
      and uses up the stream. The message that comes back is the one that was encoded
      exactly when no explicit default takes the place of a zero member without has_,
      which is not written. Lengths are 32 bits on the wire, so the encoding must be
      shorter than 2^32. */
  lemma {:induction false} RoundTrip(fields: seq<Field>, m: Message, memory: Message)
    requires WellFormed(fields) && ValidMessage(fields, m)
    ensures EncodeMessage(fields, m).Some?
    ensures var e := EncodeMessage(fields, m).value;
      var r := DecodeMessage(fields, e, memory);
      |e| < TWO_32 ==> r.Done? && r.rest == [] && (SameMessage(fields, r.value, m) <==> Survives(fields, m))
  {
    MessageEncodes(fields, m, 0);
    SetDefaultsFresh(fields, memory);
    if |EncodeMessage(fields, m).value| < TWO_32 {
      MessageRoundTrip(fields, m, SetDefaults(fields, memory));
      SurvivesExactly(fields, DecodeMessage(fields, EncodeMessage(fields, m).value, memory).value, m);
    }
  }

  // ---- Valid structs satisfy the encoder's precondition ------------------

  /** A member at its default is not written. */
  lemma {:induction false} DefaultIsEmpty(f: Field, slot: Slot)
    requires WellFormedField(f) && ValidSlot(f, slot) && !FixedCount(f) && IsDefault(f, slot)
    ensures EncodeField(f, slot) == Some([])
  {}

  lemma FirstEmpty(fields: seq<Field>, m: Message, k: nat)
    requires k < |fields| && EncodeField(fields[k], SlotAt(m, SlotIndex(fields, k))) == Some([])
    ensures EncodeFrom(fields, m, k) == EncodeFrom(fields, m, k + 1)
  {
    BothEmpty(EncodeFrom(fields, m, k + 1));
  }

  lemma {:induction false} AllDefaultIsEmpty(fields: seq<Field>, m: Message, k: nat)
    requires WellFormed(fields) && ValidMessage(fields, m) && k <= |fields|
    requires AllDefault(fields, m, k) && forall g | g in fields :: !FixedCount(g)
    ensures EncodeFrom(fields, m, k) == Some([])
    decreases |fields| - k
  {
    if k < |fields| {
      var f, slot := fields[k], m[SlotIndex(fields, k)];
      assert f in fields && WellFormedField(f) && ValidSlot(f, slot) && IsDefault(f, slot);
      DefaultIsEmpty(f, slot);
      AllDefaultIsEmpty(fields, m, k + 1);
      FirstEmpty(fields, m, k);
    }
  }

  lemma {:induction false} FieldFits(fields: seq<Field>, m: Message, from: nat, k: nat)
    requires from <= k < |fields| == |m| && EncodeFrom(fields, m, from).Some?
    ensures var e := EncodeField(fields[k], m[SlotIndex(fields, k)]);
      e.Some? && |e.value| <= |EncodeFrom(fields, m, from).value|
    decreases k - from
  {
    if from < k { FieldFits(fields, m, from + 1, k); }
  }

  lemma {:induction false} ItemFits(f: Field, items: seq<Value>, i: nat)
    requires i < |items| && EncodeTagged(f, items).Some?
    ensures EncodeValue(f, items[i]).Some? && |EncodeValue(f, items[i]).value| <= |EncodeTagged(f, items).value|
    decreases i
  {
    if i > 0 { ItemFits(f, items[1..], i - 1); }
  }

  lemma {:induction false} ValidIsShapedValue(f: Field, v: Value)
    requires WellFormedField(f) && ValidValue(f, v)
    requires EncodeValue(f, v).Some? && |EncodeValue(f, v).value| < TWO_64
    ensures ShapedValue(f, v)
    decreases f, 0
  {
    if f.l.Submessage? {
      ValidIsShaped(f.ptr.fields, v.m);
    }
  }

  lemma {:induction false} ValidIsShapedSlot(f: Field, slot: Slot)
    requires WellFormedField(f) && ValidSlot(f, slot)
    requires EncodeField(f, slot).Some? && |EncodeField(f, slot).value| < TWO_64
    ensures ShapedSlot(f, slot)
    decreases f, 1
  {
    match f.h {
      case Required => ValidIsShapedValue(f, slot.v);
      case Optional =>
        if f.sizeOffset == 0 && IsDefault(f, slot) {
          if f.l.Submessage? {
            assert IsZero(f, slot.v);
            AllDefaultIsEmpty(f.ptr.fields, slot.v.m, 0);
            ValidIsShaped(f.ptr.fields, slot.v.m);
          }
        } else if f.sizeOffset == 0 || slot.has {
          ValidIsShapedValue(f, slot.v);
        }
      case Repeated =>
        var n := Entries(f, slot);
        forall i | 0 <= i < n
          ensures ShapedValue(f, slot.items[i])
        {
          if f.l.Submessage? {
            assert EncodeField(f, slot) == EncodeTagged(f, slot.items[..n]);
            ItemFits(f, slot.items[..n], i);
            ValidIsShapedValue(f, slot.items[i]);
          }
        }
      case Oneof => if slot.which == f.tag { ValidIsShapedValue(f, slot.v); }
    }
  }

  /** A valid struct of a well-formed descriptor may be passed to pb_encode. */
  lemma {:induction false} ValidIsShaped(fields: seq<Field>, m: Message)
    requires WellFormed(fields) && ValidMessage(fields, m)
    requires EncodeMessage(fields, m).Some? && |EncodeMessage(fields, m).value| < TWO_64
    ensures Shaped(fields, m)
    decreases fields, 2
  {
    forall k | 0 <= k < |fields|
      ensures ShapedSlot(fields[k], m[SlotIndex(fields, k)])
    {
      assert WellFormedField(fields[k]) && ValidSlot(fields[k], m[SlotIndex(fields, k)]);
      FieldFits(fields, m, 0, k);
      ValidIsShapedSlot(fields[k], m[SlotIndex(fields, k)]);
    }
  }

  // ---- The encoder sees exactly what SameMessage compares ----------------

  lemma {:induction false} SameValueEncodes(f: Field, a: Value, b: Value)
    requires WellFormedField(f) && SameValue(f, a, b)
    ensures EncodeValue(f, a) == EncodeValue(f, b)
    decreases f, 0
  {
    if f.l.Submessage? {
      SameFieldsEncode(f.ptr.fields, a.m, b.m, 0);
    }
  }

  lemma {:induction false} SameItemsEncode(f: Field, a: seq<Value>, b: seq<Value>)
    requires WellFormedField(f) && |a| == |b|
    requires forall i :: 0 <= i < |a| ==> SameValue(f, a[i], b[i])
    ensures EncodeItems(f, a) == EncodeItems(f, b) && EncodeTagged(f, a) == EncodeTagged(f, b)
    decreases f, 1, |a|
  {
    if a != [] {
      SameValueEncodes(f, a[0], b[0]);
      SameItemsEncode(f, a[1..], b[1..]);
    }
  }

  lemma {:induction false} SameIsZero(f: Field, a: Value, b: Value)
    requires WellFormedField(f) && HasLess(f) && SameValue(f, a, b)
    ensures IsZero(f, a) == IsZero(f, b)
    decreases f, 0
  {
    if f.l.Submessage? {
      forall g | g in f.ptr.fields
        ensures !FixedCount(g)
      {}
      SameAllDefault(f.ptr.fields, a.m, b.m, 0);
    } else if f.l.String? {
      FirstByte(a.buf);
      FirstByte(b.buf);
    }
  }

  lemma {:induction false} FirstByte(buf: bytes)
    ensures StrLen(buf) == 0 <==> buf == [] || buf[0] == 0
  {}

  lemma {:induction false} SameIsDefault(f: Field, a: Slot, b: Slot)
    requires WellFormedField(f) && !FixedCount(f) && SameSlot(f, a, b)
    ensures IsDefault(f, a) == IsDefault(f, b)
    decreases f, 1
  {
    if HasLess(f) { SameIsZero(f, a.v, b.v); }
  }

  lemma {:induction false} SameAllDefault(fields: seq<Field>, a: Message, b: Message, k: nat)
    requires WellFormed(fields) && SameMessage(fields, a, b) && k <= |fields|
    requires forall g | g in fields :: !FixedCount(g)
    ensures AllDefault(fields, a, k) == AllDefault(fields, b, k)
    decreases fields, |fields| - k
  {
    if k < |fields| {
      var f, s := fields[k], SlotIndex(fields, k);
      assert WellFormedField(f) && !FixedCount(f) && SameSlot(f, a[s], b[s]) by { assert f in fields; }
      SameIsDefault(f, a[s], b[s]);
      SameAllDefault(fields, a, b, k + 1);
    }
  }

  lemma {:induction false} SameSlotEncodes(f: Field, a: Slot, b: Slot)
    requires WellFormedField(f) && SameSlot(f, a, b)
    ensures EncodeField(f, a) == EncodeField(f, b)
    decreases f, 2
  {
    match f.h {
      case Required => SameValueEncodes(f, a.v, b.v);
      case Optional =>
        if f.sizeOffset == 0 {
          SameIsDefault(f, a, b);
          SameValueEncodes(f, a.v, b.v);
        } else if a.has {
          SameValueEncodes(f, a.v, b.v);
        }
      case Repeated =>
        var n := Entries(f, a);
        SameItemsEncode(f, a.items[..n], b.items[..n]);
      case Oneof => if a.which == f.tag { SameValueEncodes(f, a.v, b.v); }
    }
  }

  lemma {:induction false} SameFieldsEncode(fields: seq<Field>, a: Message, b: Message, k: nat)
    requires WellFormed(fields) && SameMessage(fields, a, b) && k <= |fields|
    ensures EncodeFrom(fields, a, k) == EncodeFrom(fields, b, k)
    decreases fields, |fields| - k
  {
    if k < |fields| {
      var s := SlotIndex(fields, k);
      assert WellFormedField(fields[k]) && SameSlot(fields[k], a[s], b[s]);
      SameSlotEncodes(fields[k], a[s], b[s]);
      SameFieldsEncode(fields, a, b, k + 1);
    }
  }

  /** Two messages that both agree with a third agree with each other. */
  lemma {:induction false} SameValueChain(f: Field, c: Value, a: Value, b: Value)
    requires SameValue(f, c, a) && SameValue(f, c, b)
    ensures SameValue(f, a, b)
    decreases f, 0
  {
    if f.l.Submessage? { SameMessageChain(f.ptr.fields, c.m, a.m, b.m); }
  }

  lemma {:induction false} SameSlotChain(f: Field, c: Slot, a: Slot, b: Slot)
    requires SameSlot(f, c, a) && SameSlot(f, c, b)
    ensures SameSlot(f, a, b)
    decreases f, 1
  {
    match f.h {
      case Required => SameValueChain(f, c.v, a.v, b.v);
      case Optional => if f.sizeOffset == 0 || c.has { SameValueChain(f, c.v, a.v, b.v); }
      case Repeated =>
        forall i | 0 <= i < Entries(f, c)
          ensures SameValue(f, a.items[i], b.items[i])
        {
          SameValueChain(f, c.items[i], a.items[i], b.items[i]);
        }
      case Oneof => if c.which == f.tag { SameValueChain(f, c.v, a.v, b.v); }
    }
  }

  lemma {:induction false} SameMessageChain(fields: seq<Field>, c: Message, a: Message, b: Message)
    requires SameMessage(fields, c, a) && SameMessage(fields, c, b)
    ensures SameMessage(fields, a, b)
    decreases fields, 2
  {
    forall k | 0 <= k < |fields|
      ensures SameSlot(fields[k], a[SlotIndex(fields, k)], b[SlotIndex(fields, k)])
    {
      var s := SlotIndex(fields, k);
      SameSlotChain(fields[k], c[s], a[s], b[s]);
    }
  }

  /** The wire format identifies messages: equal bytes exactly for the same message. */
  lemma {:induction false} EncodingIdentifiesMessage(fields: seq<Field>, a: Message, b: Message)
    requires WellFormed(fields) && ValidMessage(fields, a) && ValidMessage(fields, b)
    requires EncodeMessage(fields, a).Some? ==> |EncodeMessage(fields, a).value| < TWO_32
    ensures EncodeMessage(fields, a) == EncodeMessage(fields, b) <==> SameMessage(fields, a, b)
  {
    if EncodeMessage(fields, a) == EncodeMessage(fields, b) {
      var plain := NoDefaults(fields);
      MessageEncodes(fields, a, 0);
      var c := PlainRoundTrip(fields, a);
      var d := PlainRoundTrip(fields, b);
      SameMessageChain(plain, c, a, b);
      SameMeaning(fields, a, b);
    }
    if SameMessage(fields, a, b) {
      SameFieldsEncode(fields, a, b, 0);
    }
  }

  /** Decoded by a descriptor without defaults, every struct comes back. */
  lemma PlainRoundTrip(fields: seq<Field>, m: Message) returns (c: Message)
    requires WellFormed(fields) && ValidMessage(fields, m)
    requires EncodeMessage(fields, m).Some? && |EncodeMessage(fields, m).value| < TWO_32
    ensures DecodeMessage(NoDefaults(fields), EncodeMessage(fields, m).value, []) == Done(c, [])
    ensures SameMessage(NoDefaults(fields), c, m)
  {
    EncoderIgnoresDefaults(fields, m);
    StaysWellFormed(fields);
    StaysValid(fields, m);
    PlainSurvives(fields, m);
    RoundTrip(NoDefaults(fields), m, []);
    c := DecodeMessage(NoDefaults(fields), EncodeMessage(fields, m).value, []).value;
  }

  // ---- The string edge ---------------------------------------------------

  /** The encoder accepts a string that fills its buffer without a terminator, but
      the decoder wants room for one: the value comes back exactly when it is terminated. */
  lemma {:induction false} StringRoundTripIff(f: Field, v: Value, prior: Value, rest: bytes)
    requires f.l.String? && v.Text? && |v.buf| == f.dataSize
    ensures EncodeValue(f, v).Some?
    ensures var r := DecodeValue(f, EncodeValue(f, v).value + rest, prior);
      (r.Done? && r.rest == rest && SameValue(f, r.value, v)) <==> StrLen(v.buf) < f.dataSize
  {
    var text := v.buf[..StrLen(v.buf)];
    PayloadRoundTrip(text, rest);
    if StrLen(v.buf) < f.dataSize {
      var got := text + [0] + Leftover(if prior.Text? then prior.buf else [], f.dataSize, |text| + 1);
      StrLenAt(got, |text|);
      assert got[..|text|] == text;
    }
  }

  lemma UnterminatedStringExample()
    ensures var f := Field(1, Required, String, 0, 0, 2, 0, Null);
      var v := Text([65, 66]);
      && EncodeValue(f, v) == Some([2, 65, 66])
      && DecodeValue(f, [2, 65, 66], Text([0, 0])).Fail?
  {
    var f := Field(1, Required, String, 0, 0, 2, 0, Null);
    var buf: bytes := [65, 66];
    assert buf[1..][1..] == [] && StrLen(buf[1..][1..]) == 0;
    assert buf[1..] == [66] && StrLen(buf[1..]) == 1 && StrLen(buf) == 2 && buf[..2] == buf;
    assert Delimited(buf) == [2, 65, 66];
  }

  // ---- The default edge --------------------------------------------------

  lemma {:induction false} ValueIsShort(f: Field, v: Value)
    requires WellFormedField(f) && ValidValue(f, v) && !f.l.Submessage? && EncodeValue(f, v).Some?
    ensures |EncodeValue(f, v).value| <= 265
  {
    if v.Int? {
      VarintRoundTrip(ToUnsigned(v.v, TWO_64), []);
      VarintRoundTrip(ZigZag(v.v), []);
    } else {
      VarintRoundTrip(if f.l.Bytes? then v.size else if f.l.String? then StrLen(v.buf) else |v.buf|, []);
    }
  }

  lemma {:induction false} OneFieldIsShort(f: Field, slot: Slot)
    requires WellFormedField(f) && ValidSlot(f, slot) && !f.l.Submessage? && f.h.Optional?
    requires EncodeMessage([f], [slot]).Some?
    ensures |EncodeMessage([f], [slot]).value| < TWO_32
  {
    assert SlotIndex([f], 0) == 0 && EncodeFrom([f], [slot], 1) == Some([]);
    assert EncodeFrom([f], [slot], 0) == Both(EncodeField(f, slot), EncodeFrom([f], [slot], 1));
    VarintRoundTrip(8 * f.tag + WireType(f.l), []);
    if EncodeField(f, slot) != Some([]) {
      assert EncodeField(f, slot) == TaggedValue(f, slot.v);
      ValueIsShort(f, slot.v);
    }
  }

  /** A member without has_ is left out when zero, but decoding then stores its explicit
      default: such a member, of any type but a submessage, comes back exactly when it is
      not zero or the default means the same. */
  lemma {:induction false} HasLessDefaultIff(f: Field, has: bool, v: Value, memory: Message)
    requires WellFormedField(f) && HasLess(f) && f.ptr.Default? && ValidValue(f, v)
    ensures EncodeMessage([f], [Single(has, v)]).Some?
    ensures var r := DecodeMessage([f], EncodeMessage([f], [Single(has, v)]).value, memory);
      r.Done? && (SameMessage([f], r.value, [Single(has, v)]) <==> !IsZero(f, v) || SameValue(f, f.ptr.value, v))
  {
    var m := [Single(has, v)];
    assert SlotIndex([f], 0) == 0 && [f][0] == f;
    assert ValidSlot([f][0], m[SlotIndex([f], 0)]);
    assert ValidMessage([f], m);
    MessageEncodes([f], m, 0);
    OneFieldIsShort(f, m[0]);
    RoundTrip([f], m, memory);
    assert Survives([f], m) <==> SurvivesSlot([f][0], m[SlotIndex([f], 0)]);
    assert !f.l.Submessage? && DefaultValue(f, ZeroValue(f)) == f.ptr.value;
    assert SurvivesSlot(f, m[0]) <==> !IsZero(f, v) || SameValue(f, f.ptr.value, v);
  }

  /** Equal on the integers: only zero is at risk, and only from another default. */
  lemma {:induction false} HasLessIntegerIff(f: Field, d: int, has: bool, v: Value, memory: Message)
    requires WellFormedField(f) && HasLess(f) && Packable(f.l) && f.ptr == Default(Int(d)) && ValidValue(f, v)
    ensures EncodeMessage([f], [Single(has, v)]).Some?
    ensures var r := DecodeMessage([f], EncodeMessage([f], [Single(has, v)]).value, memory);
      r.Done? && (SameMessage([f], r.value, [Single(has, v)]) <==> v != Int(0) || d == 0)
  {
    HasLessDefaultIff(f, has, v, memory);
  }

  /** An empty string in a member whose default is one letter comes back as that letter. */
  lemma HasLessStringExample()
    ensures var f := Field(1, Optional, String, 0, 0, 2, 0, Default(Text([65, 0])));
      var m := [Single(false, Text([0, 0]))];
      && EncodeMessage([f], m) == Some([])
      && DecodeMessage([f], [], m) == Done([Single(false, Text([65, 0]))], [])
  {
    var f := Field(1, Optional, String, 0, 0, 2, 0, Default(Text([65, 0])));
    var m := [Single(false, Text([0, 0]))];
    assert SlotIndex([f], 0) == 0 && IsDefault(f, m[0]);
    assert EncodeField(f, m[0]) == Some([]) && EncodeFrom([f], m, 1) == Some([]);
    BothEmpty(EncodeFrom([f], m, 1));
    assert EncodeFrom([f], m, 0) == Both(EncodeField(f, m[0]), EncodeFrom([f], m, 1));
    DefaultsAt([f], m, 0, 0);
    var blank := SetDefaults([f], m);
    assert blank == [Single(false, Text([65, 0]))];
    assert RequiredIndex([f], 1) == 0;
    assert Run([f], [], Start(blank)) == Done(Start(blank), []);
  }
}
