/** Whole messages written as lists of fields: which fields the encoder puts on the wire for a
    struct, in which order, and what each of them says. */
module PbWriting {
  import opened Basics
  import opened PbVarint
  import opened PbTypes
  import opened PbEncodeSpec
  import opened PbDecodeSpec
  import opened PbValid
  import opened PbWire
  import opened PbRoundTrip
  import opened PbMeaning
  import opened PbReading
  import opened PbEncoder
  import opened PbTheorems

  /** No group of seven bits more than needed. */
  predicate Shortest(g: bytes) {
    |g| == 1 || (|g| > 1 && g[|g| - 1] != 0)
  }

  /** What the wire says about a value: the number, a negative one in 64 bits or doubled, low
      bytes first; or the bytes the value consists of, behind their length. */
  predicate Says(f: Field, v: Value, w: Wire)
    requires WellFormedField(f) && ValidValue(f, v) && Kind(f.l, w) && w.Ok()
  {
    (w.L? ==> Shortest(w.len)) && (w.V? ==> Shortest(w.groups)) && match f.l
      case Varint => GroupsValue(w.groups) == if v.v >= 0 then v.v else 0x1_0000_0000_0000_0000 + v.v
      case UVarint => GroupsValue(w.groups) == v.v
      case SVarint => GroupsValue(w.groups) == if v.v >= 0 then 2 * v.v else -2 * v.v - 1
      case Fixed32 => FourOf(w.word) == v.v
      case Fixed64 => FourOf(w.word[..4]) + 0x1_0000_0000 * FourOf(w.word[4..]) == v.v
      case Bytes => w.body == v.buf[..v.size]
      case String => |w.body| < |v.buf| && v.buf[..|w.body|] == w.body && v.buf[|w.body|] == 0 && 0 !in w.body
      case Submessage => EncodeMessage(f.ptr.fields, v.m) == Some(w.body)
      case FixedLengthBytes => w.body == v.buf
  }

  lemma {:induction false} EncodesShortest(v: nat)
    ensures V(EncodeVarint(v)).Ok() && Shortest(EncodeVarint(v)) && GroupsValue(EncodeVarint(v)) == v
    decreases v
  {
    VarintIsGroups(v);
    EncodeVarintGroups(v, []);
    if v >= 128 { EncodesShortest(v / 128); }
  }

  lemma {:induction false} NumberWritten(f: Field, v: Value)
    requires WellFormedField(f) && ValidValue(f, v) && (f.l.Varint? || f.l.UVarint? || f.l.SVarint?)
    ensures EncodeValue(f, v).Some?
    ensures var w := V(EncodeValue(f, v).value); w.Ok() && Says(f, v, w)
  {
    if f.l.SVarint? {
      SignedWidths(f.dataSize, v.v);
      ZigZagRoundTrip(v.v);
      EncodesShortest(ZigZag(v.v));
    } else {
      assert -0x8000_0000_0000_0000 <= v.v < TWO_64;
      Bits.DivModUnique(v.v, TWO_64, if v.v < 0 then -1 else 0, if v.v < 0 then v.v + TWO_64 else v.v);
      EncodesShortest(ToUnsigned(v.v, TWO_64));
    }
  }

  lemma {:induction false} FixedWritten(f: Field, v: Value)
    requires WellFormedField(f) && ValidValue(f, v) && (f.l.Fixed32? || f.l.Fixed64?)
    ensures EncodeValue(f, v).Some?
    ensures var e := EncodeValue(f, v).value;
      var w := if f.l.Fixed32? then F32(e) else F64(e);
      w.Ok() && Says(f, v, w)
  {
    IntRoundTrip(f, v, v, []);
    var e := EncodeValue(f, v).value;
    assert e + [] == e;
    var w := if f.l.Fixed32? then F32(e) else F64(e);
    assert w.Raw() + [] == e;
    ValueExactly(f, w, v, []);
  }

  lemma DelimitedSays(s: bytes) returns (w: Wire)
    requires |Delimited(s)| < TWO_32
    ensures w.L? && w.Ok() && w.Raw() == Delimited(s) && w.body == s && Shortest(w.len)
  {
    DelimitedIsLayout(s);
    EncodesShortest(|s|);
    w := L(EncodeVarint(|s|), s);
  }

  /** One value, with the layout of its type. */
  lemma {:induction false} ValueWritten(f: Field, v: Value) returns (w: Wire)
    requires WellFormedField(f) && ValidValue(f, v)
    requires EncodeValue(f, v).Some? && |EncodeValue(f, v).value| < TWO_32
    ensures w.Ok() && Kind(f.l, w) && w.Raw() == EncodeValue(f, v).value && Says(f, v, w)
  {
    var e := EncodeValue(f, v).value;
    match f.l {
      case Varint | UVarint | SVarint =>
        NumberWritten(f, v);
        w := V(e);
      case Fixed32 =>
        FixedWritten(f, v);
        w := F32(e);
      case Fixed64 =>
        FixedWritten(f, v);
        w := F64(e);
      case Bytes => w := DelimitedSays(v.buf[..v.size]);
      case String => w := DelimitedSays(v.buf[..StrLen(v.buf)]);
      case Submessage => w := DelimitedSays(EncodeMessage(f.ptr.fields, v.m).value);
      case FixedLengthBytes => w := DelimitedSays(v.buf);
    }
  }

  // ---- Fields ------------------------------------------------------------

  /** A field on the wire for one value, its key as short as can be. */
  predicate RecSays(f: Field, v: Value, r: Rec)
    requires WellFormedField(f) && ValidValue(f, v)
  {
    && r.Ok() && r.tag == f.tag && Shortest(r.key) && r.what.One? && Kind(f.l, r.what.w)
    && Says(f, v, r.what.w)
  }

  lemma KeyWritten(tag: PbTag, code: nat)
    requires code < 8
    ensures DecodeVarint32(EncodeVarint(8 * tag + code)) == Done(8 * tag + code, [])
    ensures Shortest(EncodeVarint(8 * tag + code))
  {
    KeyReads(tag, code, []);
    EncodesShortest(8 * tag + code);
    assert EncodeTag(code, tag) + [] == EncodeVarint(8 * tag + code);
  }

  lemma {:induction false} RecWritten(f: Field, v: Value) returns (r: Rec)
    requires WellFormedField(f) && ValidValue(f, v)
    requires EncodeValue(f, v).Some? && |EncodeValue(f, v).value| < TWO_32
    ensures RecSays(f, v, r) && TaggedValue(f, v) == Some(r.Raw())
  {
    hide EncodeValue, Says;
    var w := ValueWritten(f, v);
    KeyWritten(f.tag, w.Code());
    r := Rec(f.tag, EncodeVarint(8 * f.tag + w.Code()), One(w));
  }

  /** Values one behind the other. */
  predicate AllSay(f: Field, vs: seq<Value>, ws: seq<Wire>)
    requires WellFormedField(f)
  {
    |vs| == |ws| && forall i :: 0 <= i < |vs| ==>
      ValidValue(f, vs[i]) && ws[i].Ok() && Kind(f.l, ws[i]) && Says(f, vs[i], ws[i])
  }

  lemma {:induction false} ItemsWritten(f: Field, vs: seq<Value>) returns (ws: seq<Wire>)
    requires WellFormedField(f) && Scalar(f.l) && forall i :: 0 <= i < |vs| ==> ValidValue(f, vs[i])
    requires EncodeItems(f, vs).Some? && |EncodeItems(f, vs).value| < TWO_32
    ensures AllSay(f, vs, ws) && RawAll(ws) == EncodeItems(f, vs).value
    decreases |vs|
  {
    hide EncodeValue, Says;
    if vs == [] {
      ws := [];
    } else {
      var w := ValueWritten(f, vs[0]);
      var more := ItemsWritten(f, vs[1..]);
      ws := [w] + more;
      assert ws[1..] == more;
    }
  }

  predicate AllRecSay(f: Field, vs: seq<Value>, recs: seq<Rec>)
    requires WellFormedField(f)
  {
    |vs| == |recs| && forall i :: 0 <= i < |vs| ==> ValidValue(f, vs[i]) && RecSays(f, vs[i], recs[i])
  }

  lemma {:induction false} EntriesWritten(f: Field, vs: seq<Value>) returns (recs: seq<Rec>)
    requires WellFormedField(f) && forall i :: 0 <= i < |vs| ==> ValidValue(f, vs[i])
    requires EncodeTagged(f, vs).Some? && |EncodeTagged(f, vs).value| < TWO_32
    ensures AllRecSay(f, vs, recs) && RecBytes(recs) == EncodeTagged(f, vs).value
    decreases |vs|
  {
    hide EncodeValue, RecSays;
    if vs == [] {
      recs := [];
    } else {
      TaggedCons(f, vs, []);
      var r := RecWritten(f, vs[0]);
      var more := EntriesWritten(f, vs[1..]);
      recs := [r] + more;
      assert recs[1..] == more;
    }
  }

  /** Without has_, zero is left out: the number, the empty bytes and text, the array of no
      bytes, the submessage nothing would be written of. */
  predicate Nothing(f: Field, v: Value)
    requires WellFormedField(f) && ValidValue(f, v)
  {
    match f.l
    case Varint | UVarint | SVarint | Fixed32 | Fixed64 => v == Int(0)
    case Bytes => v.size == 0
    case String => v.buf[0] == 0
    case FixedLengthBytes => v.buf == []
    case Submessage => EncodeMessage(f.ptr.fields, v.m) == Some([])
  }

  /** The fields on the wire for one member of the struct. */
  predicate FieldSays(f: Field, slot: Slot, recs: seq<Rec>)
    requires WellFormedField(f) && ValidSlot(f, slot)
  {
    match f.h
    case Required => AllRecSay(f, [slot.v], recs)
    case Optional =>
      if (if f.sizeOffset != 0 then !slot.has else Nothing(f, slot.v)) then recs == []
      else AllRecSay(f, [slot.v], recs)
    case Oneof => if slot.which == f.tag then AllRecSay(f, [slot.v], recs) else recs == []
    case Repeated =>
      var vs := slot.items[..if f.sizeOffset != 0 then slot.count else f.arraySize];
      if vs != [] && Scalar(f.l) then
        && |recs| == 1 && recs[0].Ok() && recs[0].tag == f.tag && Shortest(recs[0].key)
        && recs[0].what.Packed? && Shortest(recs[0].what.len) && AllSay(f, vs, recs[0].what.ws)
      else AllRecSay(f, vs, recs)
  }

  lemma {:induction false} OneWritten(f: Field, v: Value) returns (recs: seq<Rec>)
    requires WellFormedField(f) && ValidValue(f, v)
    requires TaggedValue(f, v).Some? && |TaggedValue(f, v).value| < TWO_32
    ensures AllRecSay(f, [v], recs) && RecBytes(recs) == TaggedValue(f, v).value
  {
    hide EncodeValue, RecSays;
    var r := RecWritten(f, v);
    recs := [r];
    assert recs[1..] == [] && r.Raw() + [] == r.Raw();
  }

  lemma {:induction false} PackedWritten(f: Field, vs: seq<Value>) returns (r: Rec)
    requires WellFormedField(f) && Scalar(f.l) && forall i :: 0 <= i < |vs| ==> ValidValue(f, vs[i])
    requires EncodeItems(f, vs).Some? && |EncodeItems(f, vs).value| < TWO_32
    ensures r.Ok() && r.tag == f.tag && Shortest(r.key) && r.what.Packed? && Shortest(r.what.len)
    ensures AllSay(f, vs, r.what.ws)
    ensures r.Raw() == EncodeTag(2, f.tag) + Delimited(EncodeItems(f, vs).value)
  {
    hide EncodeValue, Says;
    var body := EncodeItems(f, vs).value;
    var ws := ItemsWritten(f, vs);
    DelimitedIsLayout(body);
    EncodesShortest(|body|);
    KeyWritten(f.tag, 2);
    r := Rec(f.tag, EncodeVarint(8 * f.tag + 2), Packed(EncodeVarint(|body|), ws));
  }

  lemma {:induction false} ArrayWritten(f: Field, slot: Slot) returns (recs: seq<Rec>)
    requires WellFormedField(f) && ValidSlot(f, slot) && f.h.Repeated?
    requires EncodeField(f, slot).Some? && |EncodeField(f, slot).value| < TWO_32
    ensures FieldSays(f, slot, recs) && RecBytes(recs) == EncodeField(f, slot).value
  {
    hide EncodeValue, Says, RecSays;
    var vs := slot.items[..if f.sizeOffset != 0 then slot.count else f.arraySize];
    if vs == [] {
      recs := [];
    } else if Scalar(f.l) {
      var r := PackedWritten(f, vs);
      recs := [r];
      assert recs[1..] == [] && r.Raw() + [] == r.Raw();
    } else {
      recs := EntriesWritten(f, vs);
    }
  }

  /** A member without has_ is left out exactly when it is nothing. */
  lemma {:induction false} NothingExactly(f: Field, v: Value)
    requires WellFormedField(f) && HasLess(f) && ValidValue(f, v)
    ensures IsZero(f, v) <==> Nothing(f, v)
  {
    match f.l {
      case Submessage =>
        if IsZero(f, v) { AllDefaultIsEmpty(f.ptr.fields, v.m, 0); }
        if Nothing(f, v) {
          NothingIsDefault(f.ptr.fields, v.m);
          AllAreDefault(f.ptr.fields, v.m, 0);
        }
      case FixedLengthBytes => assert |v.buf| == f.dataSize;
      case _ =>
    }
  }

  lemma {:induction false} NoBytes(fields: seq<Field>, m: Message, from: nat)
    requires from <= |fields| == |m| && EncodeFrom(fields, m, from) == Some([])
    ensures forall k :: from <= k < |fields| ==> EncodeField(fields[k], m[SlotIndex(fields, k)]) == Some([])
    decreases |fields| - from
  {
    if from < |fields| {
      FromCons(fields, m, from);
      NoBytes(fields, m, from + 1);
    }
  }

  lemma {:induction false} EmptyIsDefault(f: Field, slot: Slot)
    requires WellFormedField(f) && ValidSlot(f, slot) && !FixedCount(f) && EncodeField(f, slot) == Some([])
    ensures if f.h.Oneof? then slot.which != f.tag else IsDefault(f, slot)
  {
    hide EncodeValue;
    if f.h.Repeated? && slot.count > 0 && !Packable(f.l) {
      assert EncodeTagged(f, slot.items[..slot.count]) == Some([]);
      TaggedCons(f, slot.items[..slot.count], []);
    }
  }

  /** A submessage nothing is written of has all its members at their defaults. */
  lemma {:induction false} NothingIsDefault(fields: seq<Field>, m: Message)
    requires WellFormed(fields) && ValidMessage(fields, m) && forall f | f in fields :: !FixedCount(f)
    requires EncodeMessage(fields, m) == Some([])
    ensures forall k :: 0 <= k < |fields| ==> IsDefault(fields[k], SlotAt(m, SlotIndex(fields, k)))
  {
    NoBytes(fields, m, 0);
    forall k | 0 <= k < |fields| ensures IsDefault(fields[k], SlotAt(m, SlotIndex(fields, k))) {
      var f, s := fields[k], SlotIndex(fields, k);
      assert f in fields && WellFormedField(f) && ValidSlot(f, m[s]);
      EmptyIsDefault(f, m[s]);
      if f.h.Oneof? && m[s].which != 0 {
        var j := SelectedAt(fields, s, m[s].which, |fields|);
        assert fields[j] in fields && WellFormedField(fields[j]) && ValidSlot(fields[j], m[s]);
        OneofShares(fields, j, k);
        EmptyIsDefault(fields[j], m[s]);
      }
    }
  }

  lemma {:induction false} OneofShares(fields: seq<Field>, j: nat, k: nat)
    requires j < |fields| && k < |fields| && SlotIndex(fields, j) == SlotIndex(fields, k) && fields[k].h.Oneof?
    ensures fields[j].h.Oneof?
  {}

  lemma {:induction false} AllAreDefault(fields: seq<Field>, m: Message, from: nat)
    requires from <= |fields|
    requires forall k :: from <= k < |fields| ==> IsDefault(fields[k], SlotAt(m, SlotIndex(fields, k)))
    ensures AllDefault(fields, m, from)
    decreases |fields| - from
  {
    if from < |fields| { AllAreDefault(fields, m, from + 1); }
  }

  lemma {:induction false} MemberWritten(f: Field, slot: Slot) returns (recs: seq<Rec>)
    requires WellFormedField(f) && ValidSlot(f, slot)
    requires EncodeField(f, slot).Some? && |EncodeField(f, slot).value| < TWO_32
    ensures FieldSays(f, slot, recs) && RecBytes(recs) == EncodeField(f, slot).value
  {
    hide EncodeValue, Says, RecSays, Nothing, IsZero;
    recs := [];
    match f.h {
      case Required => recs := OneWritten(f, slot.v);
      case Optional =>
        if HasLess(f) { NothingExactly(f, slot.v); }
        if EncodeField(f, slot) == TaggedValue(f, slot.v) { recs := OneWritten(f, slot.v); }
      case Oneof => if slot.which == f.tag { recs := OneWritten(f, slot.v); }
      case Repeated => recs := ArrayWritten(f, slot);
    }
  }

  // ---- Messages ----------------------------------------------------------

  function Together(parts: seq<seq<Rec>>): seq<Rec> {
    if parts == [] then [] else parts[0] + Together(parts[1..])
  }

  /** These fields say what the struct holds for table entry k. */
  predicate Part(fields: seq<Field>, m: Message, k: nat, recs: seq<Rec>) {
    && k < |fields| == |m| && WellFormedField(fields[k]) && ValidSlot(fields[k], m[SlotIndex(fields, k)])
    && FieldSays(fields[k], m[SlotIndex(fields, k)], recs)
  }

  lemma {:induction false} FirstWritten(fields: seq<Field>, m: Message, k: nat) returns (recs: seq<Rec>)
    requires WellFormed(fields) && ValidMessage(fields, m) && k < |fields|
    requires EncodeFrom(fields, m, k).Some? && |EncodeFrom(fields, m, k).value| < TWO_32
    ensures Part(fields, m, k, recs) && EncodeFrom(fields, m, k + 1).Some?
    ensures EncodeFrom(fields, m, k).value == RecBytes(recs) + EncodeFrom(fields, m, k + 1).value
  {
    hide EncodeField, FieldSays;
    FromCons(fields, m, k);
    assert WellFormedField(fields[k]) && ValidSlot(fields[k], m[SlotIndex(fields, k)]);
    recs := MemberWritten(fields[k], m[SlotIndex(fields, k)]);
  }

  lemma {:induction false} FieldsWritten(fields: seq<Field>, m: Message, k: nat) returns (parts: seq<seq<Rec>>)
    requires WellFormed(fields) && ValidMessage(fields, m) && k <= |fields|
    requires EncodeFrom(fields, m, k).Some? && |EncodeFrom(fields, m, k).value| < TWO_32
    ensures |parts| == |fields| - k && RecBytes(Together(parts)) == EncodeFrom(fields, m, k).value
    ensures forall i :: 0 <= i < |parts| ==> Part(fields, m, k + i, parts[i])
    decreases |fields| - k
  {
    hide EncodeField, Part, WellFormed, ValidMessage;
    if k == |fields| {
      parts := [];
    } else {
      var recs := FirstWritten(fields, m, k);
      var more := FieldsWritten(fields, m, k + 1);
      parts := [recs] + more;
      assert parts[1..] == more;
      RecBytesAppend(recs, Together(more));
      forall i | 0 <= i < |parts| ensures Part(fields, m, k + i, parts[i]) {
        if i > 0 { assert Part(fields, m, k + 1 + (i - 1), more[i - 1]); }
      }
    }
  }

  /** What is on the wire for a valid struct: for every member, in table order, the fields that
      say what it holds, and none for a member that is absent or nothing. */
  lemma {:induction false} MessageWritten(fields: seq<Field>, m: Message) returns (parts: seq<seq<Rec>>)
    requires WellFormed(fields) && ValidMessage(fields, m)
    requires EncodeMessage(fields, m).Some? && |EncodeMessage(fields, m).value| < TWO_32
    ensures |parts| == |fields| && EncodeMessage(fields, m) == Some(RecBytes(Together(parts)))
    ensures forall k :: 0 <= k < |fields| ==> Part(fields, m, k, parts[k])
  {
    hide EncodeField, Part, WellFormed, ValidMessage;
    parts := FieldsWritten(fields, m, 0);
    forall k | 0 <= k < |fields| ensures Part(fields, m, k, parts[k]) {
      assert Part(fields, m, 0 + k, parts[k]);
    }
  }

  lemma {:induction false} PartTyped(fields: seq<Field>, m: Message, k: nat, recs: seq<Rec>, i: nat)
    requires DistinctTags(fields) && Part(fields, m, k, recs) && i < |recs|
    ensures Typed(fields, recs[i])
  {
    hide Says;
    var f, r := fields[k], recs[i];
    assert r.tag == f.tag && Suits(f, r.what) && r.Ok() by { PartSuits(f, m[SlotIndex(fields, k)], recs, i); }
    forall j | 0 <= j < |fields| && fields[j].tag == r.tag ensures j == k {
      assert TagAt(fields, j) == TagAt(fields, k);
    }
  }

  lemma {:induction false} PartSuits(f: Field, slot: Slot, recs: seq<Rec>, i: nat)
    requires WellFormedField(f) && ValidSlot(f, slot) && FieldSays(f, slot, recs) && i < |recs|
    ensures recs[i].Ok() && recs[i].tag == f.tag && Suits(f, recs[i].what)
  {
    hide Says;
  }

  lemma {:induction false} TogetherTyped(fields: seq<Field>, parts: seq<seq<Rec>>)
    requires forall k :: 0 <= k < |parts| ==> AllTyped(fields, parts[k])
    ensures AllTyped(fields, Together(parts))
    decreases |parts|
  {
    hide Typed;
    if parts != [] { TogetherTyped(fields, parts[1..]); }
  }

  /** So every encoding is a list of fields with the layouts of the table, in which each says
      what the struct holds. */
  lemma {:induction false} EncodingIsList(fields: seq<Field>, m: Message) returns (recs: seq<Rec>)
    requires WellFormed(fields) && ValidMessage(fields, m)
    requires EncodeMessage(fields, m).Some? && |EncodeMessage(fields, m).value| < TWO_32
    ensures AllTyped(fields, recs) && EncodeMessage(fields, m) == Some(RecBytes(recs))
  {
    hide Part, Typed, ValidMessage, EncodeMessage;
    var parts := MessageWritten(fields, m);
    forall k | 0 <= k < |parts| ensures AllTyped(fields, parts[k]) {
      forall i | 0 <= i < |parts[k]| ensures Typed(fields, parts[k][i]) { PartTyped(fields, m, k, parts[k], i); }
    }
    TogetherTyped(fields, parts);
    recs := Together(parts);
  }

  // ---- What cannot be written --------------------------------------------

  /** No length or count beyond its buffer or array, at any depth. */
  predicate WithinValue(f: Field, v: Value)
    decreases f, 0
  {
    match f.l
    case Bytes => v.Blob? && v.size <= |v.buf|
    case Submessage => v.Sub? && f.ptr.SubFields? && Within(f.ptr.fields, v.m)
    case _ => true
  }

  predicate WithinSlot(f: Field, slot: Slot)
    decreases f, 1
  {
    match f.h
    case Required => slot.Single? && WithinValue(f, slot.v)
    case Optional => slot.Single? && ((f.sizeOffset != 0 ==> slot.has) ==> WithinValue(f, slot.v))
    case Repeated =>
      && slot.Array? && (f.sizeOffset != 0 ==> slot.count <= f.arraySize)
      && forall i :: 0 <= i < |slot.items| && (f.sizeOffset != 0 ==> i < slot.count) ==> WithinValue(f, slot.items[i])
    case Oneof => slot.Union? && (slot.which == f.tag ==> WithinValue(f, slot.v))
  }

  predicate Within(fields: seq<Field>, m: Message)
    decreases fields, 2
  {
    |m| == |fields| && forall k :: 0 <= k < |fields| ==> WithinSlot(fields[k], m[SlotIndex(fields, k)])
  }

  lemma {:induction false} ZeroIsWithin(f: Field, v: Value)
    requires WellFormedField(f) && HasLess(f) && ShapedValue(f, v) && IsZero(f, v)
    ensures WithinValue(f, v)
    decreases f, 0
  {
    if f.l.Submessage? {
      AllDefaultAt(f.ptr.fields, v.m, 0);
      forall k | 0 <= k < |f.ptr.fields| ensures WithinSlot(f.ptr.fields[k], v.m[SlotIndex(f.ptr.fields, k)]) {
        var g, slot := f.ptr.fields[k], v.m[SlotIndex(f.ptr.fields, k)];
        assert g in f.ptr.fields && WellFormedField(g) && ShapedSlot(g, slot) && IsDefault(g, slot);
        if HasLess(g) { ZeroIsWithin(g, slot.v); }
      }
    }
  }

  lemma {:induction false} ValueRefused(f: Field, v: Value)
    requires WellFormedField(f) && ShapedValue(f, v)
    ensures EncodeValue(f, v).Some? <==> WithinValue(f, v)
    decreases f, 0
  {
    if f.l.Submessage? { RefusedExactly(f.ptr.fields, v.m); }
  }

  lemma {:induction false} ItemsRefused(f: Field, vs: seq<Value>)
    requires WellFormedField(f) && forall i :: 0 <= i < |vs| ==> ShapedValue(f, vs[i])
    ensures EncodeItems(f, vs).Some? <==> forall i :: 0 <= i < |vs| ==> WithinValue(f, vs[i])
    ensures EncodeTagged(f, vs).Some? <==> forall i :: 0 <= i < |vs| ==> WithinValue(f, vs[i])
    decreases f, 1, |vs|
  {
    hide EncodeValue, WithinValue;
    if vs != [] {
      ValueRefused(f, vs[0]);
      ItemsRefused(f, vs[1..]);
      assert forall i :: 1 <= i < |vs| ==> vs[i] == vs[1..][i - 1];
    }
  }

  lemma {:induction false} SlotRefused(f: Field, slot: Slot)
    requires WellFormedField(f) && ShapedSlot(f, slot)
    ensures EncodeField(f, slot).Some? <==> WithinSlot(f, slot)
    decreases f, 2
  {
    hide EncodeValue, WithinValue;
    match f.h {
      case Required => ValueRefused(f, slot.v);
      case Optional =>
        if f.sizeOffset == 0 || slot.has { ValueRefused(f, slot.v); }
        if HasLess(f) && IsZero(f, slot.v) { ZeroIsWithin(f, slot.v); }
      case Repeated =>
        var n := Entries(f, slot);
        if n <= f.arraySize { ItemsRefused(f, slot.items[..n]); }
      case Oneof => if slot.which == f.tag { ValueRefused(f, slot.v); }
    }
  }

  lemma {:induction false} FromRefused(fields: seq<Field>, m: Message, from: nat)
    requires WellFormed(fields) && Shaped(fields, m) && from <= |fields|
    ensures EncodeFrom(fields, m, from).Some?
      <==> forall k :: from <= k < |fields| ==> WithinSlot(fields[k], m[SlotIndex(fields, k)])
    decreases fields, |fields| - from
  {
    hide EncodeField, WithinSlot;
    if from < |fields| {
      assert WellFormedField(fields[from]) && ShapedSlot(fields[from], m[SlotIndex(fields, from)]);
      SlotRefused(fields[from], m[SlotIndex(fields, from)]);
      FromRefused(fields, m, from + 1);
    }
  }

  /** pb_encode refuses a struct exactly when some count is above the size of its array or
      some number of bytes above the size of its buffer. */
  lemma {:induction false} RefusedExactly(fields: seq<Field>, m: Message)
    requires WellFormed(fields) && Shaped(fields, m)
    ensures EncodeMessage(fields, m).Some? <==> Within(fields, m)
    decreases fields, |fields| + 1
  {
    FromRefused(fields, m, 0);
  }
}
