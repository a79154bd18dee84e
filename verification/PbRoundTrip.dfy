/** pb_decode undoes pb_encode: every valid struct of a well-formed descriptor
    comes back, up to the storage that carries no message data. */
module PbRoundTrip {
  import opened Basics
  import opened Bits
  import opened PbVarint
  import opened PbVarintWidth
  import opened PbTypes
  import opened PbEncodeSpec
  import opened PbDecodeSpec
  import opened PbValid

  // ---- Values ------------------------------------------------------------

  lemma PayloadRoundTrip(s: bytes, rest: bytes)
    requires |s| < TWO_32
    ensures Payload(Delimited(s) + rest) == Done(s, rest)
    ensures DecodeVarint32(Delimited(s) + rest) == Done(|s|, s + rest)
    ensures Read(s + rest, |s|) == Done(s, rest)
  {
    Varint32RoundTrip(|s|, s + rest);
    assert Delimited(s) + rest == EncodeVarint(|s|) + (s + rest);
    assert (s + rest)[..|s|] == s && (s + rest)[|s|..] == rest;
  }

  /** A signed value of an m-value word survives storing and sign extension. */
  lemma SignedWord(v: int, m: nat)
    requires m > 0 && m % 2 == 0 && -(m / 2) <= v < m / 2
    ensures v % m == (if v < 0 then v + m else v) && ToSigned(v % m, m) == v
  {
    DivModUnique(v, m, if v < 0 then -1 else 0, if v < 0 then v + m else v);
    DivModUnique(v % m, m, 0, v % m);
  }

  lemma SignedWidths(n: nat, v: int)
    requires IntSize(n) && -(Modulus(n) / 2) <= v < Modulus(n) / 2
    ensures ToSigned(ToUnsigned(v, TWO_64), if n == 8 then TWO_64 else TWO_32) == v
    ensures ClampSigned(n, v) == Some(Int(v))
    ensures ToUnsigned(v, TWO_64) < TWO_64
  {
    SignedWord(v, Modulus(n));
    SignedWord(v, TWO_64);
    if n != 8 {
      SignedWord(v, TWO_32);
      if v < 0 { DivModUnique(TWO_64 + v, TWO_32, TWO_32 - 1, TWO_32 + v); }
    }
  }

  lemma {:induction false} SignedRoundTrip(f: Field, v: Value, prior: Value, rest: bytes)
    requires IntSize(f.dataSize) && ValidValue(f, v) && (f.l.Varint? || f.l.SVarint?)
    ensures EncodeValue(f, v).Some?
    ensures DecodeValue(f, EncodeValue(f, v).value + rest, prior) == Done(v, rest)
  {
    SignedWidths(f.dataSize, v.v);
    ZigZagRoundTrip(v.v);
    VarintRoundTrip(if f.l.Varint? then ToUnsigned(v.v, TWO_64) else ZigZag(v.v), rest);
  }

  lemma {:induction false} IntRoundTrip(f: Field, v: Value, prior: Value, rest: bytes)
    requires WellFormedField(f) && ValidValue(f, v) && Packable(f.l)
    ensures EncodeValue(f, v).Some?
    ensures DecodeValue(f, EncodeValue(f, v).value + rest, prior) == Done(v, rest)
  {
    if f.l.Varint? || f.l.SVarint? {
      SignedRoundTrip(f, v, prior, rest);
    } else {
      var m := if f.l.Fixed32? then TWO_32 else TWO_64;
      assert ToUnsigned(v.v, m) == v.v by { DivModUnique(v.v, m, 0, v.v); }
      if f.l.UVarint? {
        VarintRoundTrip(v.v, rest);
      } else {
        FixedRoundTrip(v.v, if f.l.Fixed32? then 4 else 8, rest);
      }
    }
  }

  lemma {:induction false} FixedRoundTrip(v: nat, n: nat, rest: bytes)
    requires (n == 4 && v < TWO_32) || (n == 8 && v < TWO_64)
    ensures Read(LittleEndian(v, n) + rest, n) == Done(LittleEndian(v, n), rest)
    ensures FromLittleEndian(LittleEndian(v, n)) == v
  {
    PowersOfTwo();
    LittleEndianRoundTrip(v, n);
    var e := LittleEndian(v, n);
    assert (e + rest)[..n] == e && (e + rest)[n..] == rest;
  }

  lemma {:induction false} TextRoundTrip(f: Field, v: Value, prior: Value, rest: bytes)
    requires f.l.String? && ValidValue(f, v)
    ensures EncodeValue(f, v).Some?
    ensures var r := DecodeValue(f, EncodeValue(f, v).value + rest, prior);
      r.Done? && r.rest == rest && SameValue(f, r.value, v)
  {
    var text := v.buf[..StrLen(v.buf)];
    PayloadRoundTrip(text, rest);
    TextBack(text, Leftover(if prior.Text? then prior.buf else [], f.dataSize, |text| + 1));
  }

  lemma TextBack(text: bytes, left: bytes)
    requires 0 !in text
    ensures var got := text + [0] + left; StrLen(got) == |text| && got[..|text|] == text
  {
    StrLenAt(text + [0] + left, |text|);
  }

  /** Bytes, strings and inline arrays. */
  lemma {:induction false} BufferRoundTrip(f: Field, v: Value, prior: Value, rest: bytes)
    requires WellFormedField(f) && ValidValue(f, v) && (f.l.Bytes? || f.l.String? || f.l.FixedLengthBytes?)
    ensures EncodeValue(f, v).Some?
    ensures var r := DecodeValue(f, EncodeValue(f, v).value + rest, prior);
      r.Done? && r.rest == rest && SameValue(f, r.value, v)
  {
    match f.l
    case Bytes => PayloadRoundTrip(v.buf[..v.size], rest);
    case String => TextRoundTrip(f, v, prior, rest);
    case FixedLengthBytes =>
      PayloadRoundTrip(v.buf, rest);
      if f.dataSize == 0 { assert v.buf == Zeros(0); }
    case _ =>
  }

  lemma {:induction false} StrLenAt(buf: bytes, n: nat)
    requires n < |buf| && buf[n] == 0 && forall i :: 0 <= i < n ==> buf[i] != 0
    ensures StrLen(buf) == n
    decreases n
  {}

  /** Storage a submessage may be decoded into: a repeated entry is initialised
      by the decoder, anything else must have been set to defaults already. */
  predicate ReadyFor(f: Field, prior: Value) {
    f.l.Submessage? && !f.h.Repeated? ==>
      prior.Sub? && f.ptr.SubFields? && FreshMessage(f.ptr.fields, prior.m)
  }

  lemma {:induction false} ValueRoundTrip(f: Field, v: Value, prior: Value, rest: bytes)
    requires WellFormedField(f) && ValidValue(f, v) && ReadyFor(f, prior)
    requires EncodeValue(f, v).Some? && |EncodeValue(f, v).value| < TWO_32
    ensures var r := DecodeValue(f, EncodeValue(f, v).value + rest, prior);
      r.Done? && r.rest == rest && CarriedValue(f, r.value, v)
    decreases f, 0
  {
    if Packable(f.l) {
      IntRoundTrip(f, v, prior, rest);
    } else if f.l.Submessage? {
      var fields := f.ptr.fields;
      var body := EncodeMessage(fields, v.m).value;
      PayloadRoundTrip(body, rest);
      if f.h.Repeated? {
        var memory := if prior.Sub? then prior.m else [];
        SetDefaultsFresh(fields, memory);
        MessageRoundTrip(fields, v.m, SetDefaults(fields, memory));
      } else {
        MessageRoundTrip(fields, v.m, prior.m);
      }
    } else {
      BufferRoundTrip(f, v, prior, rest);
    }
  }

  // ---- Arrays ------------------------------------------------------------

  lemma {:induction false} PackedRoundTrip(f: Field, want: seq<Value>, i: nat, items: seq<Value>)
    requires WellFormedField(f) && Packable(f.l)
    requires |items| == f.arraySize && i <= |want| <= f.arraySize
    requires forall j :: 0 <= j < |want| ==> ValidValue(f, want[j])
    requires forall j :: 0 <= j < i ==> items[j] == want[j]
    ensures EncodeItems(f, want[i..]).Some?
    ensures var r := DecodePacked(f, EncodeItems(f, want[i..]).value, items, i);
      && r.Some? && r.value.count == |want| && |r.value.items| == |items|
      && forall j :: 0 <= j < |want| ==> r.value.items[j] == want[j]
    decreases |want| - i
  {
    if i < |want| {
      PackedRoundTrip(f, want, i + 1, items[i := want[i]]);
      assert want[i..][1..] == want[i + 1..];
      IntRoundTrip(f, want[i], items[i], EncodeItems(f, want[i + 1..]).value);
      assert EncodeItems(f, want[i..]).value
          == EncodeValue(f, want[i]).value + EncodeItems(f, want[i + 1..]).value;
    }
  }

  // ---- Fields ------------------------------------------------------------

  /** Slot of field j once the fields before k have been decoded. */
  predicate FieldState(f: Field, got: Slot, want: Slot, passed: bool) {
    if f.h.Oneof? then
      && got.Union? && want.Union?
      && (if want.which == f.tag
          then if passed then CarriedSlot(f, got, want) else got.which == 0
          else got.which == 0 || got.which == want.which)
    else if passed then CarriedSlot(f, got, want)
    else FreshSlot(f, got)
  }

  /** Loop state of the decoder in front of the encoding of field k. */
  predicate Progress(fields: seq<Field>, m: Message, k: nat, st: LoopState)
    requires k <= |fields|
  {
    && StateOk(fields, st) && |st.msg| == |m| == |fields|
    && (forall j :: 0 <= j < |fields| ==>
          FieldState(fields[j], st.msg[SlotIndex(fields, j)], m[SlotIndex(fields, j)], j < k))
    && (forall i: nat :: i < Min(RequiredIndex(fields, k), PB_MAX_REQUIRED_FIELDS) ==> i in st.seen)
    && FixedDone(fields, st) && (st.fixed.Some? ==> st.fixed.value < k)
  }

  lemma {:induction false} FindUnique(fields: seq<Field>, start: nat, n: nat, k: nat)
    requires DistinctTags(fields) && start < |fields| && k < |fields| && n <= |fields|
    requires if start <= k then k - start < n else |fields| + k - start < n
    ensures FindFrom(fields, start, n, fields[k].tag) == Some(k)
    decreases n
  {
    if start != k {
      assert TagAt(fields, start) != TagAt(fields, k);
      FindUnique(fields, if start + 1 == |fields| then 0 else start + 1, n - 1, k);
    }
  }

  /** The decoder recognises an encoded tag and goes to its field. */
  lemma {:induction false} StepFinds(fields: seq<Field>, k: nat, wt: nat, body: bytes, st: LoopState)
    requires DistinctTags(fields) && k < |fields| && StateOk(fields, st) && wt < 8
    ensures EncodeTag(wt, fields[k].tag) + body != []
    ensures Step(fields, EncodeTag(wt, fields[k].tag) + body, st) == FoundField(fields, k, wt, body, st)
  {
    KeyReads(fields[k].tag, wt, body);
    FindUnique(fields, st.pos, |fields|, k);
  }

  /** The key splits into tag and wire type again. */
  lemma KeyReads(tag: nat, wt: nat, body: bytes)
    requires wt < 8 && 8 * tag + wt < TWO_32
    ensures EncodeTag(wt, tag) + body != []
    ensures DecodeVarint32(EncodeTag(wt, tag) + body) == Done(8 * tag + wt, body)
    ensures (8 * tag + wt) / 8 == tag && (8 * tag + wt) % 8 == wt
  {
    Varint32RoundTrip(8 * tag + wt, body);
  }

  lemma {:induction false} RunStep(fields: seq<Field>, bs: bytes, st: LoopState)
    requires StateOk(fields, st) && bs != [] && Step(fields, bs, st).Next?
    ensures Run(fields, bs, st) == Run(fields, Step(fields, bs, st).rest, Step(fields, bs, st).st)
  {}

  lemma RequiredGrows(fields: seq<Field>, k: nat, seen: set<nat>, seen': set<nat>)
    requires k < |fields| && seen <= seen'
    requires forall i: nat :: i < Min(RequiredIndex(fields, k), PB_MAX_REQUIRED_FIELDS) ==> i in seen
    requires fields[k].h.Required? && RequiredIndex(fields, k) < PB_MAX_REQUIRED_FIELDS ==>
      RequiredIndex(fields, k) in seen'
    ensures forall i: nat :: i < Min(RequiredIndex(fields, k + 1), PB_MAX_REQUIRED_FIELDS) ==> i in seen'
  {}

  /** Only field k's slot changes, so the other fields keep their state. */
  lemma {:induction false} ProgressStep(fields: seq<Field>, m: Message, k: nat, st: LoopState, st': LoopState)
    requires k < |fields| && Progress(fields, m, k, st) && DistinctTags(fields)
    requires StateOk(fields, st') && FixedDone(fields, st') && (st'.fixed.Some? ==> st'.fixed.value <= k)
    requires |st'.msg| == |st.msg| && st'.msg == st.msg[SlotIndex(fields, k) := st'.msg[SlotIndex(fields, k)]]
    requires var s := SlotIndex(fields, k);
      && FieldState(fields[k], st'.msg[s], m[s], true)
      && (fields[k].h.Oneof? ==> st'.msg[s] == st.msg[s] || st'.msg[s].which == fields[k].tag == m[s].which)
    requires st.seen <= st'.seen
    requires fields[k].h.Required? && RequiredIndex(fields, k) < PB_MAX_REQUIRED_FIELDS ==>
      RequiredIndex(fields, k) in st'.seen
    ensures Progress(fields, m, k + 1, st')
  {
    var s := SlotIndex(fields, k);
    forall j | 0 <= j < |fields|
      ensures FieldState(fields[j], st'.msg[SlotIndex(fields, j)], m[SlotIndex(fields, j)], j < k + 1)
    {
      var sj := SlotIndex(fields, j);
      assert FieldState(fields[j], st.msg[sj], m[sj], j < k);
      if j != k {
        assert TagAt(fields, j) != TagAt(fields, k);
        if sj != s {
          assert st'.msg[sj] == st.msg[sj];
        } else {
          assert fields[j].h.Oneof? && fields[k].h.Oneof?;
        }
      }
    }
    RequiredGrows(fields, k, st.seen, st'.seen);
  }

  /** Fields for which encode_basic_field writes nothing. */
  predicate Omitted(f: Field, slot: Slot) {
    match f.h
    case Required => false
    case Optional => slot.Single? && (if f.sizeOffset != 0 then !slot.has else IsDefault(f, slot))
    case Repeated => slot.Array? && Entries(f, slot) == 0
    case Oneof => slot.Union? && slot.which != f.tag
  }

  /** A field the encoder leaves out was already right. */
  lemma AbsentField(fields: seq<Field>, m: Message, k: nat, st: LoopState)
    requires k < |fields| && WellFormed(fields) && ValidMessage(fields, m) && Progress(fields, m, k, st)
    requires Omitted(fields[k], m[SlotIndex(fields, k)])
    ensures Progress(fields, m, k + 1, st)
  {
    var f, s := fields[k], SlotIndex(fields, k);
    assert WellFormedField(f) && ValidSlot(f, m[s]);
    assert FieldState(f, st.msg[s], m[s], false);
    if HasLess(f) { OmittedSlot(f, st.msg[s], m[s]); }
    ProgressStep(fields, m, k, st, st);
  }

  lemma {:induction false} TaggedSplit(f: Field, v: Value, rest: bytes)
    requires EncodeValue(f, v).Some?
    ensures TaggedValue(f, v).value + rest
         == EncodeTag(WireType(f.l), f.tag) + (EncodeValue(f, v).value + rest)
  {}

  lemma {:induction false} TaggedCons(f: Field, items: seq<Value>, rest: bytes)
    requires items != [] && EncodeTagged(f, items).Some?
    ensures EncodeValue(f, items[0]).Some? && EncodeTagged(f, items[1..]).Some?
    ensures |EncodeValue(f, items[0]).value| <= |EncodeTagged(f, items).value|
    ensures |EncodeTagged(f, items[1..]).value| <= |EncodeTagged(f, items).value|
    ensures EncodeTagged(f, items).value + rest
         == TaggedValue(f, items[0]).value + (EncodeTagged(f, items[1..]).value + rest)
  {}

  /** State after a required, optional or oneof field. */
  function AfterSingle(fields: seq<Field>, k: nat, slot: Slot, st: LoopState): LoopState
    requires k < |fields| && SlotIndex(fields, k) < |st.msg|
  {
    LoopState(k, st.msg[SlotIndex(fields, k) := slot],
              if fields[k].h.Required? && RequiredIndex(fields, k) < PB_MAX_REQUIRED_FIELDS
              then st.seen + {RequiredIndex(fields, k)} else st.seen,
              st.fixed, st.fixedSize)
  }

  lemma {:induction false} FoundSingle(fields: seq<Field>, k: nat, body: bytes, st: LoopState)
    requires k < |fields| && StateOk(fields, st) && SlotIndex(fields, k) < |st.msg| && !fields[k].h.Repeated?
    requires DecodeStatic(fields[k], WireType(fields[k].l), body, st.msg[SlotIndex(fields, k)]).Done?
    ensures var r := DecodeStatic(fields[k], WireType(fields[k].l), body, st.msg[SlotIndex(fields, k)]);
      FoundField(fields, k, WireType(fields[k].l), body, st) == Next(AfterSingle(fields, k, r.value, st), r.rest)
  {}

  /** What a single-valued slot holds after its value has been decoded. */
  lemma {:induction false} SlotRoundTrip(f: Field, got: Slot, want: Slot, rest: bytes)
    requires WellFormedField(f) && ValidSlot(f, want) && !f.h.Repeated? && !Omitted(f, want)
    requires FieldState(f, got, want, false)
    requires EncodeValue(f, want.v).Some? && |EncodeValue(f, want.v).value| < TWO_32
    ensures var r := DecodeStatic(f, WireType(f.l), EncodeValue(f, want.v).value + rest, got);
      && r.Done? && r.rest == rest && CarriedSlot(f, r.value, want)
      && (f.h.Oneof? ==> r.value.which == f.tag == want.which)
    decreases f, 1
  {
    var prior := if f.h.Oneof? && f.l.Submessage? then DefaultValue(f, ZeroValue(f)) else got.v;
    if f.h.Oneof? {
      DefaultValueFresh(f, ZeroValue(f));
    } else {
      assert FreshSlot(f, got) && FreshValue(f, got.v);
    }
    ValueRoundTrip(f, want.v, prior, rest);
  }

  /** A tag and one value: required, optional and oneof fields. */
  lemma SingleField(fields: seq<Field>, m: Message, k: nat, st: LoopState, rest: bytes)
      returns (st': LoopState)
    requires k < |fields| && WellFormed(fields) && ValidMessage(fields, m) && Progress(fields, m, k, st)
    requires var f, slot := fields[k], m[SlotIndex(fields, k)];
      && !f.h.Repeated? && (slot.Single? || slot.Union?) && !Omitted(f, slot)
      && EncodeValue(f, slot.v).Some? && |EncodeValue(f, slot.v).value| < TWO_32
    ensures Progress(fields, m, k + 1, st')
    ensures var f := fields[k];
      Run(fields, TaggedValue(f, m[SlotIndex(fields, k)].v).value + rest, st) == Run(fields, rest, st')
    decreases fields, |fields| - k, 1
  {
    var f, s := fields[k], SlotIndex(fields, k);
    assert WellFormedField(f) && ValidSlot(f, m[s]);
    assert FieldState(f, st.msg[s], m[s], false);
    var e := EncodeValue(f, m[s].v).value;
    SlotRoundTrip(f, st.msg[s], m[s], rest);
    st' := AfterSingle(fields, k, DecodeStatic(f, WireType(f.l), e + rest, st.msg[s]).value, st);
    SingleRuns(fields, k, m[s].v, st, rest);
    ProgressStep(fields, m, k, st, st');
  }

  /** The loop's round on a tag and one value. */
  lemma {:induction false} SingleRuns(fields: seq<Field>, k: nat, v: Value, st: LoopState, rest: bytes)
    requires k < |fields| && WellFormed(fields) && StateOk(fields, st) && SlotIndex(fields, k) < |st.msg|
    requires !fields[k].h.Repeated? && EncodeValue(fields[k], v).Some?
    requires var r := DecodeStatic(fields[k], WireType(fields[k].l), EncodeValue(fields[k], v).value + rest,
                                   st.msg[SlotIndex(fields, k)]);
      r.Done? && r.rest == rest
    ensures var f := fields[k];
      var r := DecodeStatic(f, WireType(f.l), EncodeValue(f, v).value + rest, st.msg[SlotIndex(fields, k)]);
      Run(fields, TaggedValue(f, v).value + rest, st) == Run(fields, rest, AfterSingle(fields, k, r.value, st))
  {
    var f := fields[k];
    var e, tag := EncodeValue(f, v).value, EncodeTag(WireType(f.l), f.tag);
    StepFinds(fields, k, WireType(f.l), e + rest, st);
    FoundSingle(fields, k, e + rest, st);
    TaggedSplit(f, v, rest);
    RunStep(fields, tag + (e + rest), st);
  }

  /** An array slot with its first i entries received. */
  predicate Received(fields: seq<Field>, m: Message, k: nat, i: nat, before: LoopState, st: LoopState)
    requires k < |fields| && Progress(fields, m, k, before)
  {
    var f, s := fields[k], SlotIndex(fields, k);
    && StateOk(fields, st) && f.h.Repeated? && s < |m| && m[s].Array? && i <= |m[s].items|
    && |st.msg| == |before.msg| && st.msg == before.msg[s := st.msg[s]] && st.seen == before.seen
    && st.msg[s].Array? && |st.msg[s].items| == f.arraySize == |m[s].items|
    && (forall j :: 0 <= j < i ==> CarriedValue(f, st.msg[s].items[j], m[s].items[j]))
    && (if FixedCount(f)
        then if i == 0 then st.fixed == before.fixed && st.fixedSize == before.fixedSize
             else st.fixed == Some(k) && st.fixedSize == i
        else st.fixed == before.fixed && st.fixedSize == before.fixedSize && st.msg[s].count == i)
  }

  lemma {:induction false} AllReceived(fields: seq<Field>, m: Message, k: nat, before: LoopState, st: LoopState)
    requires k < |fields| && WellFormed(fields) && ValidMessage(fields, m) && Progress(fields, m, k, before)
    requires fields[k].h.Repeated? && m[SlotIndex(fields, k)].Array?
    requires Received(fields, m, k, Entries(fields[k], m[SlotIndex(fields, k)]), before, st)
    ensures Progress(fields, m, k + 1, st)
  {
    var f, s := fields[k], SlotIndex(fields, k);
    assert CarriedSlot(f, st.msg[s], m[s]);
    ProgressStep(fields, m, k, before, st);
  }

  /** State after a packed array. */
  function AfterPacked(fields: seq<Field>, k: nat, r: Slot, st: LoopState): LoopState
    requires k < |fields| && SlotIndex(fields, k) < |st.msg| && st.msg[SlotIndex(fields, k)].Array? && r.Array?
  {
    var s := SlotIndex(fields, k);
    if FixedCount(fields[k])
    then LoopState(k, st.msg[s := Array(st.msg[s].count, r.items)], st.seen, Some(k), r.count)
    else LoopState(k, st.msg[s := r], st.seen, st.fixed, st.fixedSize)
  }

  lemma {:induction false} FoundPacked(fields: seq<Field>, k: nat, body: bytes, rest: bytes, st: LoopState)
    requires k < |fields| && StateOk(fields, st) && SlotIndex(fields, k) < |st.msg|
    requires var f, slot := fields[k], st.msg[SlotIndex(fields, k)];
      && f.h.Repeated? && Packable(f.l) && slot.Array?
      && (if FixedCount(f) then FixedDone(fields, st) && st.fixed != Some(k) else slot.count == 0)
      && DecodePacked(f, body, slot.items, 0).Some? && |body| < TWO_32
    ensures var f, slot := fields[k], st.msg[SlotIndex(fields, k)];
      FoundField(fields, k, WT_STRING, Delimited(body) + rest, st)
        == Next(AfterPacked(fields, k, DecodePacked(f, body, slot.items, 0).value, st), rest)
  {
    PayloadRoundTrip(body, rest);
  }

  lemma {:induction false} SameItems(f: Field, got: seq<Value>, want: seq<Value>, n: nat)
    requires Packable(f.l) && n <= |got| && n <= |want|
    requires forall j :: 0 <= j < n ==> got[j] == want[..n][j]
    ensures forall j :: 0 <= j < n ==> CarriedValue(f, got[j], want[j])
  {}

  lemma PackedField(fields: seq<Field>, m: Message, k: nat, st: LoopState, rest: bytes)
      returns (st': LoopState)
    requires k < |fields| && WellFormed(fields) && ValidMessage(fields, m) && Progress(fields, m, k, st)
    requires fields[k].h.Repeated? && Packable(fields[k].l)
    requires m[SlotIndex(fields, k)].Array? && 0 < Entries(fields[k], m[SlotIndex(fields, k)])
    requires var f, slot := fields[k], m[SlotIndex(fields, k)];
      var e := EncodeArray(f, slot.items, Entries(f, slot));
      e.Some? ==> |e.value| < TWO_32
    ensures Progress(fields, m, k + 1, st')
    ensures var f, slot := fields[k], m[SlotIndex(fields, k)];
      var e := EncodeArray(f, slot.items, Entries(f, slot));
      e.Some? && Run(fields, e.value + rest, st) == Run(fields, rest, st')
  {
    var f, s := fields[k], SlotIndex(fields, k);
    assert WellFormedField(f) && ValidSlot(f, m[s]);
    assert FieldState(f, st.msg[s], m[s], false);
    var n := Entries(f, m[s]);
    var want := m[s].items[..n];
    PackedRoundTrip(f, want, 0, st.msg[s].items);
    assert want[0..] == want;
    var body := EncodeItems(f, want).value;
    var e := EncodeArray(f, m[s].items, n).value;
    assert e == EncodeTag(WT_STRING, f.tag) + Delimited(body);
    StepFinds(fields, k, WT_STRING, Delimited(body) + rest, st);
    FoundPacked(fields, k, body, rest, st);
    st' := AfterPacked(fields, k, DecodePacked(f, body, st.msg[s].items, 0).value, st);
    Associate(EncodeTag(WT_STRING, f.tag), Delimited(body), rest);
    RunStep(fields, EncodeTag(WT_STRING, f.tag) + (Delimited(body) + rest), st);
    SameItems(f, st'.msg[s].items, m[s].items, n);
    AllReceived(fields, m, k, st, st');
  }

  /** State after entry i of an unpacked array. */
  function AfterEntry(fields: seq<Field>, k: nat, i: nat, v: Value, st: LoopState): LoopState
    requires k < |fields| && SlotIndex(fields, k) < |st.msg| && st.msg[SlotIndex(fields, k)].Array?
    requires i < |st.msg[SlotIndex(fields, k)].items|
  {
    var s := SlotIndex(fields, k);
    var items := st.msg[s].items[i := v];
    if FixedCount(fields[k])
    then LoopState(k, st.msg[s := Array(st.msg[s].count, items)], st.seen, Some(k), i + 1)
    else LoopState(k, st.msg[s := Array(i + 1, items)], st.seen, st.fixed, st.fixedSize)
  }

  /** Entry i of an unpacked array is the next one the loop stores in field k. */
  predicate EntryDue(fields: seq<Field>, k: nat, i: nat, st: LoopState) {
    && k < |fields| && StateOk(fields, st) && SlotIndex(fields, k) < |st.msg|
    && var f, slot := fields[k], st.msg[SlotIndex(fields, k)];
       && f.h.Repeated? && !Packable(f.l) && slot.Array? && i < f.arraySize == |slot.items|
       && (if FixedCount(f)
           then if i == 0 then FixedDone(fields, st) && st.fixed != Some(k)
                else st.fixed == Some(k) && st.fixedSize == i
           else slot.count == i)
  }

  lemma {:induction false} FoundEntry(fields: seq<Field>, k: nat, i: nat, body: bytes, st: LoopState)
    requires EntryDue(fields, k, i, st)
    requires DecodeValue(fields[k], body, st.msg[SlotIndex(fields, k)].items[i]).Done?
    ensures var f, slot := fields[k], st.msg[SlotIndex(fields, k)];
      var r := DecodeValue(f, body, slot.items[i]);
      FoundField(fields, k, WireType(f.l), body, st) == Next(AfterEntry(fields, k, i, r.value, st), r.rest)
  {}

  /** One entry of an unpacked array, whatever follows it. */
  lemma TaggedEntry(fields: seq<Field>, m: Message, k: nat, i: nat,
                    before: LoopState, st: LoopState, more: bytes)
      returns (next: LoopState)
    requires k < |fields| && WellFormed(fields) && ValidMessage(fields, m) && Progress(fields, m, k, before)
    requires fields[k].h.Repeated? && !Packable(fields[k].l) && m[SlotIndex(fields, k)].Array?
    requires i < Entries(fields[k], m[SlotIndex(fields, k)]) <= |m[SlotIndex(fields, k)].items|
    requires Received(fields, m, k, i, before, st)
    requires var e := EncodeValue(fields[k], m[SlotIndex(fields, k)].items[i]);
      e.Some? && |e.value| < TWO_32
    ensures Received(fields, m, k, i + 1, before, next)
    ensures var e := TaggedValue(fields[k], m[SlotIndex(fields, k)].items[i]).value;
      Run(fields, e + more, st) == Run(fields, more, next)
    decreases fields, |fields| - k, 0
  {
    var f, s := fields[k], SlotIndex(fields, k);
    assert WellFormedField(f) && ValidSlot(f, m[s]);
    var v := m[s].items[i];
    ValueRoundTrip(f, v, st.msg[s].items[i], more);
    var got := DecodeValue(f, EncodeValue(f, v).value + more, st.msg[s].items[i]).value;
    next := AfterEntry(fields, k, i, got, st);
    EntryIsDue(fields, m, k, i, before, st);
    EntryRuns(fields, k, i, v, st, more);
    EntryReceived(fields, m, k, i, before, st, got);
  }

  lemma {:induction false} EntryIsDue(fields: seq<Field>, m: Message, k: nat, i: nat, before: LoopState, st: LoopState)
    requires k < |fields| && Progress(fields, m, k, before) && Received(fields, m, k, i, before, st)
    requires !Packable(fields[k].l) && i < |m[SlotIndex(fields, k)].items|
    ensures EntryDue(fields, k, i, st)
  {
    assert FieldState(fields[k], before.msg[SlotIndex(fields, k)], m[SlotIndex(fields, k)], false);
  }

  lemma {:induction false} EntryReceived(fields: seq<Field>, m: Message, k: nat, i: nat, before: LoopState,
                                         st: LoopState, got: Value)
    requires k < |fields| && Progress(fields, m, k, before) && Received(fields, m, k, i, before, st)
    requires i < |m[SlotIndex(fields, k)].items| && CarriedValue(fields[k], got, m[SlotIndex(fields, k)].items[i])
    ensures Received(fields, m, k, i + 1, before, AfterEntry(fields, k, i, got, st))
  {}

  /** The loop's round on a tag and one entry. */
  lemma {:induction false} EntryRuns(fields: seq<Field>, k: nat, i: nat, v: Value, st: LoopState, more: bytes)
    requires EntryDue(fields, k, i, st) && WellFormed(fields) && EncodeValue(fields[k], v).Some?
    requires var r := DecodeValue(fields[k], EncodeValue(fields[k], v).value + more,
                                  st.msg[SlotIndex(fields, k)].items[i]);
      r.Done? && r.rest == more
    ensures var f := fields[k];
      var r := DecodeValue(f, EncodeValue(f, v).value + more, st.msg[SlotIndex(fields, k)].items[i]);
      Run(fields, TaggedValue(f, v).value + more, st) == Run(fields, more, AfterEntry(fields, k, i, r.value, st))
  {
    var f := fields[k];
    var e, tag := EncodeValue(f, v).value, EncodeTag(WireType(f.l), f.tag);
    StepFinds(fields, k, WireType(f.l), e + more, st);
    FoundEntry(fields, k, i, e + more, st);
    TaggedSplit(f, v, more);
    RunStep(fields, tag + (e + more), st);
  }

  /** The last |todo| entries of an unpacked array are still to come. */
  predicate Pending(fields: seq<Field>, m: Message, k: nat, todo: seq<Value>, before: LoopState, st: LoopState) {
    && k < |fields| && WellFormed(fields) && ValidMessage(fields, m) && Progress(fields, m, k, before)
    && fields[k].h.Repeated? && !Packable(fields[k].l) && m[SlotIndex(fields, k)].Array?
    && var slot := m[SlotIndex(fields, k)];
       && |todo| <= Entries(fields[k], slot) <= |slot.items|
       && todo == slot.items[Entries(fields[k], slot) - |todo|..Entries(fields[k], slot)]
       && Received(fields, m, k, Entries(fields[k], slot) - |todo|, before, st)
  }

  lemma TailSlice(items: seq<Value>, n: nat, todo: seq<Value>)
    requires 0 < |todo| <= n <= |items| && todo == items[n - |todo|..n]
    ensures todo[0] == items[n - |todo|] && todo[1..] == items[n - |todo| + 1..n]
  {}

  lemma {:induction false} StillPending(fields: seq<Field>, m: Message, k: nat, todo: seq<Value>,
                                        before: LoopState, st: LoopState, next: LoopState)
    requires Pending(fields, m, k, todo, before, st) && todo != []
    requires Received(fields, m, k, Entries(fields[k], m[SlotIndex(fields, k)]) - |todo| + 1, before, next)
    ensures Pending(fields, m, k, todo[1..], before, next)
  {
    TailSlice(m[SlotIndex(fields, k)].items, Entries(fields[k], m[SlotIndex(fields, k)]), todo);
  }

  lemma FirstPending(fields: seq<Field>, m: Message, k: nat, todo: seq<Value>,
                     before: LoopState, st: LoopState, rest: bytes)
      returns (next: LoopState)
    requires Pending(fields, m, k, todo, before, st) && todo != []
    requires EncodeTagged(fields[k], todo).Some? && |EncodeTagged(fields[k], todo).value| < TWO_32
    ensures Pending(fields, m, k, todo[1..], before, next) && EncodeTagged(fields[k], todo[1..]).Some?
    ensures |EncodeTagged(fields[k], todo[1..]).value| <= |EncodeTagged(fields[k], todo).value|
    ensures Run(fields, EncodeTagged(fields[k], todo).value + rest, st)
         == Run(fields, EncodeTagged(fields[k], todo[1..]).value + rest, next)
    decreases fields, |fields| - k, 1
  {
    hide Run, EncodeTag;
    var n := Entries(fields[k], m[SlotIndex(fields, k)]);
    TailSlice(m[SlotIndex(fields, k)].items, n, todo);
    TaggedCons(fields[k], todo, rest);
    next := TaggedEntry(fields, m, k, n - |todo|, before, st, EncodeTagged(fields[k], todo[1..]).value + rest);
    StillPending(fields, m, k, todo, before, st, next);
  }

  lemma {:induction false} TaggedEntries(fields: seq<Field>, m: Message, k: nat, todo: seq<Value>,
                                         before: LoopState, st: LoopState, rest: bytes)
      returns (st': LoopState)
    requires Pending(fields, m, k, todo, before, st)
    requires EncodeTagged(fields[k], todo).Some? && |EncodeTagged(fields[k], todo).value| < TWO_32
    ensures Progress(fields, m, k + 1, st')
    ensures Run(fields, EncodeTagged(fields[k], todo).value + rest, st) == Run(fields, rest, st')
    decreases fields, |fields| - k, 2, |todo|
  {
    if todo == [] {
      st' := st;
      assert [] + rest == rest;
      AllReceived(fields, m, k, before, st);
    } else {
      var next := FirstPending(fields, m, k, todo, before, st, rest);
      st' := TaggedEntries(fields, m, k, todo[1..], before, next, rest);
    }
  }

  lemma UnpackedField(fields: seq<Field>, m: Message, k: nat, st: LoopState, rest: bytes)
      returns (st': LoopState)
    requires k < |fields| && WellFormed(fields) && ValidMessage(fields, m) && Progress(fields, m, k, st)
    requires var f, slot := fields[k], m[SlotIndex(fields, k)];
      && f.h.Repeated? && !Packable(f.l) && slot.Array? && |slot.items| == f.arraySize
      && 0 < Entries(f, slot) <= |slot.items|
      && EncodeTagged(f, slot.items[..Entries(f, slot)]).Some?
      && |EncodeTagged(f, slot.items[..Entries(f, slot)]).value| < TWO_32
    ensures Progress(fields, m, k + 1, st')
    ensures var f, slot := fields[k], m[SlotIndex(fields, k)];
      Run(fields, EncodeTagged(f, slot.items[..Entries(f, slot)]).value + rest, st) == Run(fields, rest, st')
    decreases fields, |fields| - k, 3
  {
    var f, slot := fields[k], m[SlotIndex(fields, k)];
    assert FieldState(f, st.msg[SlotIndex(fields, k)], slot, false);
    var todo := slot.items[..Entries(f, slot)];
    assert todo == slot.items[0..Entries(f, slot)] && |todo| == Entries(f, slot);
    st' := TaggedEntries(fields, m, k, todo, st, st, rest);
  }

  /** Decoding the encoding of field k moves the loop on to field k + 1. */
  lemma FieldRoundTrip(fields: seq<Field>, m: Message, k: nat, st: LoopState, rest: bytes)
      returns (st': LoopState)
    requires k < |fields| && WellFormed(fields) && ValidMessage(fields, m) && Progress(fields, m, k, st)
    requires var e := EncodeField(fields[k], m[SlotIndex(fields, k)]);
      e.Some? && |e.value| < TWO_32
    ensures Progress(fields, m, k + 1, st')
    ensures Run(fields, EncodeField(fields[k], m[SlotIndex(fields, k)]).value + rest, st) == Run(fields, rest, st')
    decreases fields, |fields| - k, 4
  {
    var f, s := fields[k], SlotIndex(fields, k);
    var slot := m[s];
    assert WellFormedField(f) && ValidSlot(f, slot);
    assert FieldState(f, st.msg[s], slot, false);
    var e := EncodeField(f, slot).value;
    if f.h.Repeated? {
      var n := Entries(f, slot);
      if n == 0 {
        AbsentField(fields, m, k, st);
        st' := st;
        assert e + rest == rest;
      } else if Packable(f.l) {
        st' := PackedField(fields, m, k, st, rest);
      } else {
        st' := UnpackedField(fields, m, k, st, rest);
      }
    } else if f.h.Required? || (f.h.Oneof? && slot.which == f.tag)
        || (f.h.Optional? && if f.sizeOffset != 0 then slot.has else !IsDefault(f, slot)) {
      st' := SingleField(fields, m, k, st, rest);
    } else {
      AbsentField(fields, m, k, st);
      st' := st;
      assert e + rest == rest;
    }
  }

  lemma FromCons(fields: seq<Field>, m: Message, k: nat)
    requires k < |fields| == |m| && EncodeFrom(fields, m, k).Some?
    ensures EncodeField(fields[k], m[SlotIndex(fields, k)]).Some? && EncodeFrom(fields, m, k + 1).Some?
    ensures EncodeFrom(fields, m, k).value
         == EncodeField(fields[k], m[SlotIndex(fields, k)]).value + EncodeFrom(fields, m, k + 1).value
  {}

  lemma FirstField(fields: seq<Field>, m: Message, k: nat, st: LoopState) returns (next: LoopState)
    requires k < |fields| && WellFormed(fields) && ValidMessage(fields, m) && Progress(fields, m, k, st)
    requires EncodeFrom(fields, m, k).Some? && |EncodeFrom(fields, m, k).value| < TWO_32
    ensures Progress(fields, m, k + 1, next)
    ensures EncodeFrom(fields, m, k + 1).Some? && |EncodeFrom(fields, m, k + 1).value| < TWO_32
    ensures Run(fields, EncodeFrom(fields, m, k).value, st) == Run(fields, EncodeFrom(fields, m, k + 1).value, next)
    decreases fields, |fields| - k, 5
  {
    FromCons(fields, m, k);
    next := FieldRoundTrip(fields, m, k, st, EncodeFrom(fields, m, k + 1).value);
  }

  lemma {:induction false} FieldsRoundTrip(fields: seq<Field>, m: Message, k: nat, st: LoopState)
      returns (st': LoopState)
    requires k <= |fields| && WellFormed(fields) && ValidMessage(fields, m) && Progress(fields, m, k, st)
    requires EncodeFrom(fields, m, k).Some? && |EncodeFrom(fields, m, k).value| < TWO_32
    ensures Progress(fields, m, |fields|, st')
    ensures Run(fields, EncodeFrom(fields, m, k).value, st) == Done(st', [])
    decreases fields, |fields| - k, 6
  {
    if k == |fields| {
      st' := st;
    } else {
      var next := FirstField(fields, m, k, st);
      st' := FieldsRoundTrip(fields, m, k + 1, next);
    }
  }

  /** A fresh struct is the state before the first field. */
  lemma {:induction false} FreshStart(fields: seq<Field>, m: Message, blank: Message)
    requires WellFormed(fields) && ValidMessage(fields, m) && FreshMessage(fields, blank)
    ensures Progress(fields, m, 0, Start(blank))
  {
    forall j | 0 <= j < |fields|
      ensures FieldState(fields[j], blank[SlotIndex(fields, j)], m[SlotIndex(fields, j)], false)
    {
      assert FreshSlot(fields[j], blank[SlotIndex(fields, j)]);
      assert ValidSlot(fields[j], m[SlotIndex(fields, j)]);
    }
  }

  /** After the last field every slot carries what was sent. */
  lemma {:induction false} AllCarried(fields: seq<Field>, m: Message, st: LoopState)
    requires WellFormed(fields) && ValidMessage(fields, m) && Progress(fields, m, |fields|, st)
    ensures CarriedMessage(fields, st.msg, m)
  {
    forall k | 0 <= k < |fields|
      ensures CarriedSlot(fields[k], st.msg[SlotIndex(fields, k)], m[SlotIndex(fields, k)])
    {
      var s := SlotIndex(fields, k);
      assert FieldState(fields[k], st.msg[s], m[s], true);
      if fields[k].h.Oneof? && m[s].which != 0 {
        var j := SelectedAt(fields, s, m[s].which, |fields|);
        assert FieldState(fields[j], st.msg[s], m[s], true);
        if j < k || k < j { assert s <= j && s <= k; }
      }
    }
  }

  lemma {:induction false} MessageRoundTrip(fields: seq<Field>, m: Message, blank: Message)
    requires WellFormed(fields) && ValidMessage(fields, m) && FreshMessage(fields, blank)
    requires EncodeMessage(fields, m).Some? && |EncodeMessage(fields, m).value| < TWO_32
    ensures var r := DecodeNoinit(fields, EncodeMessage(fields, m).value, blank);
      r.Done? && r.rest == [] && CarriedMessage(fields, r.value, m)
    decreases fields, |fields| + 1
  {
    FreshStart(fields, m, blank);
    var st := FieldsRoundTrip(fields, m, 0, Start(blank));
    AllCarried(fields, m, st);
  }
}
