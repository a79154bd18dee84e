/** Decoding does not depend on unknown fields or on the order of independent
    fields, and its presence checks say exactly which fields were on the wire. */
module PbOrder {
  import opened Basics
  import opened PbVarint
  import opened PbTypes
  import opened PbEncodeSpec
  import opened PbDecodeSpec
  import opened PbValid
  import opened PbRoundTrip
  import opened PbWire

  // ---- Every reader ignores what follows the bytes it consumed -----------

  lemma SkipExtends(wt: nat, bs: bytes, y: bytes)
    requires SkipField(wt, bs).Done?
    ensures SkipField(wt, bs + y) == Done((), SkipField(wt, bs).rest + y)
  {
    if wt == WT_VARINT {
      VarintLengthExtends(bs, y);
      ReadExtends(bs, VarintLength(bs).value, y);
    } else if wt == WT_STRING {
      PayloadExtends(bs, y);
    } else {
      ReadExtends(bs, if wt == WT_64BIT then 8 else 4, y);
    }
  }

  lemma {:induction false} ValueExtends(f: Field, bs: bytes, prior: Value, y: bytes)
    requires DecodeValue(f, bs, prior).Done?
    ensures var r := DecodeValue(f, bs, prior);
      DecodeValue(f, bs + y, prior) == Done(r.value, r.rest + y)
  {
    match f.l
    case Varint | UVarint | SVarint => VarintExtends(bs, y);
    case Fixed32 => ReadExtends(bs, 4, y);
    case Fixed64 => ReadExtends(bs, 8, y);
    case Submessage => PayloadExtends(bs, y);
    case Bytes | String | FixedLengthBytes =>
      Varint32Extends(bs, y);
      var size, rest := DecodeVarint32(bs).value, DecodeVarint32(bs).rest;
      if size <= |rest| { ReadExtends(rest, size, y); }
  }

  lemma {:induction false} StaticExtends(f: Field, wt: nat, bs: bytes, slot: Slot, y: bytes)
    requires DecodeStatic(f, wt, bs, slot).Done?
    ensures var r := DecodeStatic(f, wt, bs, slot);
      DecodeStatic(f, wt, bs + y, slot) == Done(r.value, r.rest + y)
  {
    match f.h
    case Required | Optional => ValueExtends(f, bs, slot.v, y);
    case Repeated =>
      if wt == WT_STRING && Packable(f.l) {
        PayloadExtends(bs, y);
      } else {
        ValueExtends(f, bs, slot.items[slot.count], y);
      }
    case Oneof => ValueExtends(f, bs, if f.l.Submessage? then DefaultValue(f, ZeroValue(f)) else slot.v, y);
  }

  lemma {:induction false} StepExtends(fields: seq<Field>, bs: bytes, st: LoopState, y: bytes)
    requires bs != [] && StateOk(fields, st) && Step(fields, bs, st).Next?
    ensures var r := Step(fields, bs, st);
      Step(fields, bs + y, st) == Next(r.st, r.rest + y)
  {
    Varint32Extends(bs, y);
    var key, rest := DecodeVarint32(bs).value, DecodeVarint32(bs).rest;
    match Find(fields, st.pos, key / 8)
    case None => SkipExtends(key % 8, rest, y);
    case Some(k) => FoundExtends(fields, k, key % 8, rest, st, y);
  }

  lemma {:induction false} FoundExtends(fields: seq<Field>, k: nat, wt: nat, bs: bytes, st: LoopState, y: bytes)
    requires k < |fields| && StateOk(fields, st) && FoundField(fields, k, wt, bs, st).Next?
    ensures var r := FoundField(fields, k, wt, bs, st);
      FoundField(fields, k, wt, bs + y, st) == Next(r.st, r.rest + y)
  {
    var f, slot := fields[k], st.msg[SlotIndex(fields, k)];
    var counter := if FixedCount(f) && st.fixed != Some(k) then 0 else st.fixedSize;
    StaticExtends(f, wt, bs, if FixedCount(f) && slot.Array? then slot.(count := counter) else slot, y);
  }

  /** State after bs, when bs is a sequence of whole fields. */
  function Walk(fields: seq<Field>, bs: bytes, st: LoopState): (r: Option<LoopState>)
    requires StateOk(fields, st)
    ensures r.Some? ==> StateOk(fields, r.value)
    decreases |bs|
  {
    if bs == [] then Some(st)
    else match Step(fields, bs, st)
      case Next(st', rest) => Walk(fields, rest, st')
      case _ => None
  }

  lemma {:induction false} WalkThenRun(fields: seq<Field>, a: bytes, b: bytes, st: LoopState)
    requires StateOk(fields, st) && Walk(fields, a, st).Some?
    ensures Run(fields, a + b, st) == Run(fields, b, Walk(fields, a, st).value)
    decreases |a|
  {
    if a == [] {
      assert a + b == b;
    } else {
      var r := Step(fields, a, st);
      StepExtends(fields, a, st, b);
      RunStep(fields, a + b, st);
      WalkThenRun(fields, r.rest, b, r.st);
    }
  }

  lemma {:induction false} OneField(fields: seq<Field>, x: bytes, rest: bytes, st: LoopState)
    requires StateOk(fields, st) && x != [] && Step(fields, x, st).Next? && Step(fields, x, st).rest == []
    ensures Run(fields, x + rest, st) == Run(fields, rest, Step(fields, x, st).st)
  {
    StepExtends(fields, x, st, rest);
    assert [] + rest == rest;
    RunStep(fields, x + rest, st);
  }

  // ---- Unknown fields ----------------------------------------------------

  /** One field on the wire that the table has no entry for. Tag 0 is no different, but in
      front of code 0 it ends the message, and an empty table has it as its terminator. */
  predicate Foreign(fields: seq<Field>, r: Rec) {
    && r.Ok() && (forall i :: 0 <= i < |fields| ==> fields[i].tag != r.tag)
    && (r.tag != 0 || (fields != [] && r.what.Code() != 0))
  }

  lemma {:induction false} FindNone(fields: seq<Field>, start: nat, n: nat, tag: nat)
    requires start < |fields| && forall i :: 0 <= i < |fields| ==> fields[i].tag != tag
    ensures FindFrom(fields, start, n, tag).None?
    decreases n
  {}

  lemma {:induction false} UnknownStep(fields: seq<Field>, r: Rec, rest: bytes, st: LoopState)
    requires Foreign(fields, r) && StateOk(fields, st)
    ensures r.Raw() != [] && Step(fields, r.Raw() + rest, st) == Next(st, rest)
  {
    RecKey(r, rest);
    SkipsContent(r.what, rest);
    if fields != [] { FindNone(fields, st.pos, |fields|, r.tag); }
  }

  /** An unknown field at a field boundary changes nothing, not even the loop state. */
  lemma {:induction false} UnknownFieldIgnored(fields: seq<Field>, a: bytes, r: Rec, b: bytes, m: Message)
    requires Foreign(fields, r) && Walk(fields, a, Start(m)).Some?
    ensures DecodeNoinit(fields, a + r.Raw() + b, m) == DecodeNoinit(fields, a + b, m)
  {
    var st := Walk(fields, a, Start(m)).value;
    UnknownStep(fields, r, b, st);
    RunStep(fields, r.Raw() + b, st);
    WalkThenRun(fields, a, b, Start(m));
    WalkThenRun(fields, a, r.Raw() + b, Start(m));
    Associate(a, r.Raw(), b);
  }

  /** In particular what another descriptor's encoder writes for a value. */
  lemma {:induction false} ForeignValueIgnored(fields: seq<Field>, a: bytes, g: Field, v: Value, b: bytes, m: Message)
    requires (forall i :: 0 <= i < |fields| ==> fields[i].tag != g.tag) && Walk(fields, a, Start(m)).Some?
    requires EncodeValue(g, v).Some? && |EncodeValue(g, v).value| < TWO_32
    ensures DecodeNoinit(fields, a + TaggedValue(g, v).value + b, m) == DecodeNoinit(fields, a + b, m)
  {
    var r := TaggedRec(g, v);
    UnknownFieldIgnored(fields, a, r, b, m);
  }

  // ---- The end of a message ----------------------------------------------

  /** A zero key, of whatever length, ends the message like the end of the bytes; what stands
      behind it is left unread. */
  lemma {:induction false} ZeroKeyEnds(fields: seq<Field>, a: bytes, zero: bytes, b: bytes, m: Message)
    requires Walk(fields, a, Start(m)).Some? && DecodeVarint32(zero) == Done(0, [])
    ensures DecodeNoinit(fields, a + zero + b, m)
      == match DecodeNoinit(fields, a, m) case Fail => Fail case Done(m', _) => Done(m', b)
  {
    hide FoundField, SkipField, RequiredSeen, FixedDone;
    Varint32Extends(zero, b);
    assert [] + b == b && a + [] == a;
    WalkThenRun(fields, a, zero + b, Start(m));
    WalkThenRun(fields, a, [], Start(m));
    Associate(a, zero, b);
  }

  /** The shortest is a zero byte. */
  lemma ZeroByteIsZeroKey()
    ensures DecodeVarint32([0]) == Done(0, [])
  {}

  /** In an empty table tag 0 finds the terminator, which nothing can be stored in: a field
      with tag 0 is refused there, where any other table skips it. */
  lemma {:induction false} TagZeroExactly(fields: seq<Field>, r: Rec, rest: bytes, st: LoopState)
    requires r.Ok() && r.tag == 0 && r.what.Code() != 0 && StateOk(fields, st)
    ensures r.Raw() != []
    ensures Step(fields, r.Raw() + rest, st) == if fields == [] then Abort else Next(st, rest)
  {
    RecKey(r, rest);
    if fields != [] { UnknownStep(fields, r, rest, st); }
  }

  // ---- Merging -----------------------------------------------------------

  /** Equal loop states but for where the iterator stands and that a has seen more. */
  predicate SeenMore(a: LoopState, b: LoopState) {
    a.msg == b.msg && b.seen <= a.seen && a.fixed == b.fixed && a.fixedSize == b.fixedSize
  }

  lemma {:induction false} StepSeenMore(fields: seq<Field>, bs: bytes, a: LoopState, b: LoopState)
    requires bs != [] && DistinctTags(fields) && StateOk(fields, a) && StateOk(fields, b) && SeenMore(a, b)
    ensures var ra, rb := Step(fields, bs, a), Step(fields, bs, b);
      match ra
      case Abort => rb.Abort?
      case Stop(end) => rb == Stop(end)
      case Next(st, rest) => rb.Next? && rb.rest == rest && SeenMore(st, rb.st)
  {
    if DecodeVarint32(bs).Done? && fields != [] {
      FindAnywhere(fields, a.pos, b.pos, DecodeVarint32(bs).value / 8);
    }
  }

  lemma {:induction false} RunSeenMore(fields: seq<Field>, bs: bytes, a: LoopState, b: LoopState)
    requires DistinctTags(fields) && StateOk(fields, a) && StateOk(fields, b) && SeenMore(a, b)
    ensures var ra, rb := Run(fields, bs, a), Run(fields, bs, b);
      if ra.Fail? then rb.Fail? else rb.Done? && ra.rest == rb.rest && SeenMore(ra.value, rb.value)
    decreases |bs|
  {
    if bs != [] {
      StepSeenMore(fields, bs, a, b);
      var ra, rb := Step(fields, bs, a), Step(fields, bs, b);
      if ra.Next? { RunSeenMore(fields, ra.rest, ra.st, rb.st); }
    }
  }

  lemma {:induction false} StepNeverFixed(fields: seq<Field>, bs: bytes, st: LoopState)
    requires (forall f :: f in fields ==> !FixedCount(f)) && StateOk(fields, st)
    requires bs != [] && Step(fields, bs, st).Next?
    ensures Step(fields, bs, st).st.fixed == st.fixed && Step(fields, bs, st).st.fixedSize == st.fixedSize
  {
    hide FoundField, SkipField;
    match Find(fields, st.pos, DecodeVarint32(bs).value / 8) {
      case None =>
      case Some(k) =>
        assert fields[k] in fields;
        FoundCounts(fields, k, DecodeVarint32(bs).value % 8, DecodeVarint32(bs).rest, st);
    }
  }

  lemma {:induction false} NeverFixed(fields: seq<Field>, bs: bytes, st: LoopState)
    requires (forall f :: f in fields ==> !FixedCount(f)) && StateOk(fields, st) && Walk(fields, bs, st).Some?
    ensures Walk(fields, bs, st).value.fixed == st.fixed && Walk(fields, bs, st).value.fixedSize == st.fixedSize
    decreases |bs|
  {
    hide Step;
    if bs != [] {
      var r := Step(fields, bs, st);
      StepNeverFixed(fields, bs, st);
      NeverFixed(fields, r.rest, r.st);
    }
  }

  /** Two messages decoded one on top of the other are their concatenation decoded, for
      tables without fixed-count arrays, whose runs begin again with every message. */
  lemma {:induction false} MergeIsConcatenation(fields: seq<Field>, a: bytes, b: bytes, m: Message)
    requires DistinctTags(fields) && (forall f :: f in fields ==> !FixedCount(f))
    requires Walk(fields, a, Start(m)).Some? && DecodeNoinit(fields, a, m).Done?
    requires DecodeNoinit(fields, b, DecodeNoinit(fields, a, m).value).Done?
    ensures DecodeNoinit(fields, a + b, m) == DecodeNoinit(fields, b, DecodeNoinit(fields, a, m).value)
  {
    hide Step;
    var st := Walk(fields, a, Start(m)).value;
    WalkThenRun(fields, a, b, Start(m));
    WalkThenRun(fields, a, [], Start(m));
    assert a + [] == a;
    NeverFixed(fields, a, Start(m));
    RunSeenMore(fields, b, st.(fixedSize := 0), Start(st.msg));
  }

  // ---- Order -------------------------------------------------------------

  /** Equal loop states apart from where the iterator stands. */
  predicate SameUpToPos(a: LoopState, b: LoopState) {
    a.msg == b.msg && a.seen == b.seen && a.fixed == b.fixed && a.fixedSize == b.fixedSize
  }

  predicate SameOutcome(a: Parsed<LoopState>, b: Parsed<LoopState>) {
    if a.Fail? then b.Fail? else b.Done? && a.rest == b.rest && SameUpToPos(a.value, b.value)
  }

  lemma FindAnywhere(fields: seq<Field>, p: nat, q: nat, tag: nat)
    requires DistinctTags(fields) && p < |fields| && q < |fields|
    ensures Find(fields, p, tag) == Find(fields, q, tag)
  {
    if k: nat :| k < |fields| && fields[k].tag == tag {
      FindUnique(fields, p, |fields|, k);
      FindUnique(fields, q, |fields|, k);
    } else {
      FindNone(fields, p, |fields|, tag);
      FindNone(fields, q, |fields|, tag);
    }
  }

  /** With distinct tags, where the search starts does not matter. */
  lemma {:induction false} RunFromAnywhere(fields: seq<Field>, bs: bytes, a: LoopState, b: LoopState)
    requires DistinctTags(fields) && StateOk(fields, a) && StateOk(fields, b) && SameUpToPos(a, b)
    ensures SameOutcome(Run(fields, bs, a), Run(fields, bs, b))
    decreases |bs|
  {
    if bs != [] {
      StepFromAnywhere(fields, bs, a, b);
      var ra, rb := Step(fields, bs, a), Step(fields, bs, b);
      if ra.Next? { RunFromAnywhere(fields, ra.rest, ra.st, rb.st); }
    }
  }

  lemma {:induction false} StepFromAnywhere(fields: seq<Field>, bs: bytes, a: LoopState, b: LoopState)
    requires bs != [] && DistinctTags(fields) && StateOk(fields, a) && StateOk(fields, b) && SameUpToPos(a, b)
    ensures var ra, rb := Step(fields, bs, a), Step(fields, bs, b);
      match ra
      case Abort => rb.Abort?
      case Stop(end) => rb == Stop(end)
      case Next(st, rest) => rb.Next? && rb.rest == rest && SameUpToPos(st, rb.st)
  {
    if DecodeVarint32(bs).Done? && fields != [] {
      FindAnywhere(fields, a.pos, b.pos, DecodeVarint32(bs).value / 8);
    }
  }

  /** One complete field for table position k. */
  predicate FieldFor(fields: seq<Field>, k: nat, x: bytes) {
    k < |fields| && DecodeVarint32(x).Done? && DecodeVarint32(x).value / 8 == fields[k].tag
  }

  /** Fields whose decoding touches nothing but their own slot. */
  predicate Independent(f: Field) {
    !f.h.Oneof? && !FixedCount(f)
  }

  lemma {:induction false} StepFor(fields: seq<Field>, k: nat, x: bytes, st: LoopState)
    requires DistinctTags(fields) && StateOk(fields, st) && FieldFor(fields, k, x)
    ensures Step(fields, x, st)
      == FoundField(fields, k, DecodeVarint32(x).value % 8, DecodeVarint32(x).rest, st)
  {
    FindUnique(fields, st.pos, |fields|, k);
  }

  /** x is one whole field, and takes st to st'. */
  predicate Decodes(fields: seq<Field>, x: bytes, st: LoopState, st': LoopState) {
    x != [] && StateOk(fields, st) && Step(fields, x, st) == Next(st', [])
  }

  /** An independent field does the same in every state that agrees on its slot. */
  lemma {:induction false} IndependentStep(fields: seq<Field>, k: nat, y: bytes, st: LoopState, st': LoopState,
                                           other: LoopState)
    requires DistinctTags(fields) && FieldFor(fields, k, y) && Independent(fields[k])
    requires Decodes(fields, y, st, st') && StateOk(fields, other)
    requires |other.msg| == |st.msg|
    requires SlotIndex(fields, k) < |st.msg| ==> other.msg[SlotIndex(fields, k)] == st.msg[SlotIndex(fields, k)]
    ensures SlotIndex(fields, k) < |st.msg| == |st'.msg|
    ensures Decodes(fields, y, other, AfterSingle(fields, k, st'.msg[SlotIndex(fields, k)], other))
  {
    StepFor(fields, k, y, st);
    StepFor(fields, k, y, other);
  }

  lemma {:induction false} SwapAfter(fields: seq<Field>, j: nat, u: Slot, k: nat, v: Slot, st: LoopState)
    requires j < |fields| && k < |fields| && SlotIndex(fields, j) != SlotIndex(fields, k)
    requires SlotIndex(fields, j) < |st.msg| && SlotIndex(fields, k) < |st.msg|
    ensures SameUpToPos(AfterSingle(fields, k, v, AfterSingle(fields, j, u, st)),
                        AfterSingle(fields, j, u, AfterSingle(fields, k, v, st)))
  {}

  /** Swapping two adjacent independent fields leaves a successful decode's result unchanged. */
  lemma {:induction false} AdjacentFieldsCommute(fields: seq<Field>, a: bytes, j: nat, x: bytes, sx: LoopState,
                              k: nat, y: bytes, sxy: LoopState, b: bytes, m: Message)
    requires DistinctTags(fields) && Walk(fields, a, Start(m)).Some?
    requires j != k && FieldFor(fields, j, x) && FieldFor(fields, k, y)
    requires Independent(fields[j]) && Independent(fields[k])
    requires Decodes(fields, x, Walk(fields, a, Start(m)).value, sx) && Decodes(fields, y, sx, sxy)
    ensures DecodeNoinit(fields, a + x + y + b, m) == DecodeNoinit(fields, a + y + x + b, m)
  {
    var st, s, t := Walk(fields, a, Start(m)).value, SlotIndex(fields, j), SlotIndex(fields, k);
    assert s != t;
    IndependentStep(fields, j, x, st, sx, st);
    IndependentStep(fields, k, y, sx, sxy, sx);
    IndependentStep(fields, k, y, sx, sxy, st);
    var sy := AfterSingle(fields, k, sxy.msg[t], st);
    IndependentStep(fields, j, x, st, sx, sy);
    SwapAfter(fields, j, sx.msg[s], k, sxy.msg[t], st);
    TwoSteps(fields, a, x, y, b, m);
    TwoSteps(fields, a, y, x, b, m);
    RunFromAnywhere(fields, b, sxy, AfterSingle(fields, j, sx.msg[s], sy));
  }

  lemma Regroup(a: bytes, x: bytes, y: bytes, b: bytes)
    ensures a + x + y + b == a + (x + (y + b))
  {}

  lemma {:induction false} TwoSteps(fields: seq<Field>, a: bytes, x: bytes, y: bytes, b: bytes, m: Message)
    requires Walk(fields, a, Start(m)).Some? && x != [] && y != []
    requires var st := Walk(fields, a, Start(m)).value;
      && Step(fields, x, st).Next? && Step(fields, x, st).rest == []
      && Step(fields, y, Step(fields, x, st).st).Next? && Step(fields, y, Step(fields, x, st).st).rest == []
    ensures var st := Walk(fields, a, Start(m)).value;
      Run(fields, a + x + y + b, Start(m)) == Run(fields, b, Step(fields, y, Step(fields, x, st).st).st)
  {
    var st := Walk(fields, a, Start(m)).value;
    var sx := Step(fields, x, st).st;
    Regroup(a, x, y, b);
    WalkThenRun(fields, a, x + (y + b), Start(m));
    OneField(fields, x, y + b, st);
    OneField(fields, y, b, sx);
  }

  // ---- Presence ----------------------------------------------------------

  /** Table positions of the known fields, in the order they are decoded. */
  function Trace(fields: seq<Field>, bs: bytes, st: LoopState): seq<nat>
    requires StateOk(fields, st)
    decreases |bs|
  {
    if bs == [] then []
    else match Step(fields, bs, st)
      case Next(st', rest) =>
        (match Find(fields, st.pos, DecodeVarint32(bs).value / 8) case Some(k) => [k] case None => [])
        + Trace(fields, rest, st')
      case _ => []
  }

  predicate Tracked(fields: seq<Field>, k: nat) {
    k < |fields| && fields[k].h.Required? && RequiredIndex(fields, k) < PB_MAX_REQUIRED_FIELDS
  }

  function RequiredBefore(fields: seq<Field>, k: nat): set<nat>
    requires k <= |fields|
  {
    set i: nat | i < k && fields[i].h.Required?
  }

  /** Of the required fields exactly the first sixty-four are tracked. */
  lemma {:induction false} TrackedExactly(fields: seq<Field>, k: nat)
    requires k < |fields|
    ensures Tracked(fields, k) <==> fields[k].h.Required? && |RequiredBefore(fields, k)| < 64
  {
    RequiredCounts(fields, k);
  }

  lemma {:induction false} RequiredCounts(fields: seq<Field>, k: nat)
    requires k <= |fields|
    ensures RequiredIndex(fields, k) == |RequiredBefore(fields, k)|
    decreases k
  {
    if k == 0 {
      assert RequiredBefore(fields, 0) == {};
    } else {
      RequiredCounts(fields, k - 1);
      var last := if fields[k - 1].h.Required? then {k - 1} else {};
      assert RequiredBefore(fields, k) == RequiredBefore(fields, k - 1) + last;
    }
  }

  lemma {:induction false} RequiredIndexMono(fields: seq<Field>, j: nat, k: nat)
    requires j < k <= |fields|
    ensures RequiredIndex(fields, j) + (if fields[j].h.Required? then 1 else 0) <= RequiredIndex(fields, k)
    decreases k
  {
    if j < k - 1 { RequiredIndexMono(fields, j, k - 1); }
  }

  lemma {:induction false} RequiredAt(fields: seq<Field>, i: nat, n: nat) returns (k: nat)
    requires n <= |fields| && i < RequiredIndex(fields, n)
    ensures k < n && fields[k].h.Required? && RequiredIndex(fields, k) == i
    decreases n
  {
    if fields[n - 1].h.Required? && RequiredIndex(fields, n - 1) == i {
      k := n - 1;
    } else {
      k := RequiredAt(fields, i, n - 1);
    }
  }

  lemma {:induction false} SeenStep(fields: seq<Field>, bs: bytes, st: LoopState, k: nat)
    requires bs != [] && StateOk(fields, st) && Step(fields, bs, st).Next? && Tracked(fields, k)
    ensures RequiredIndex(fields, k) in Step(fields, bs, st).st.seen <==>
      RequiredIndex(fields, k) in st.seen || Find(fields, st.pos, DecodeVarint32(bs).value / 8) == Some(k)
  {
    match Find(fields, st.pos, DecodeVarint32(bs).value / 8)
    case None =>
    case Some(p) =>
      if p < k {
        RequiredIndexMono(fields, p, k);
      } else if k < p {
        RequiredIndexMono(fields, k, p);
      }
  }

  lemma {:induction false} SeenIsTrace(fields: seq<Field>, bs: bytes, st: LoopState, k: nat)
    requires StateOk(fields, st) && Run(fields, bs, st).Done? && Tracked(fields, k)
    ensures RequiredIndex(fields, k) in Run(fields, bs, st).value.seen <==>
      RequiredIndex(fields, k) in st.seen || k in Trace(fields, bs, st)
    decreases |bs|
  {
    if bs != [] {
      var r := Step(fields, bs, st);
      if r.Next? {
        SeenStep(fields, bs, st, k);
        SeenIsTrace(fields, r.rest, r.st, k);
        match Find(fields, st.pos, DecodeVarint32(bs).value / 8) {
          case Some(p) => assert Trace(fields, bs, st) == [p] + Trace(fields, r.rest, r.st);
          case None => assert Trace(fields, bs, st) == Trace(fields, r.rest, r.st);
        }
      }
    }
  }

  /** The bit test at the end of decoding says exactly which required fields came. */
  lemma {:induction false} RequiredExact(fields: seq<Field>, bs: bytes, m: Message)
    requires Run(fields, bs, Start(m)).Done?
    ensures RequiredSeen(fields, Run(fields, bs, Start(m)).value.seen) <==>
      forall k: nat :: Tracked(fields, k) ==> k in Trace(fields, bs, Start(m))
  {
    var seen, trace := Run(fields, bs, Start(m)).value.seen, Trace(fields, bs, Start(m));
    if RequiredSeen(fields, seen) {
      forall k: nat | Tracked(fields, k)
        ensures k in trace
      {
        RequiredIndexMono(fields, k, |fields|);
        SeenIsTrace(fields, bs, Start(m), k);
      }
    }
    if forall k: nat :: Tracked(fields, k) ==> k in trace {
      forall i: nat | i < Min(RequiredIndex(fields, |fields|), PB_MAX_REQUIRED_FIELDS)
        ensures i in seen
      {
        var k := RequiredAt(fields, i, |fields|);
        assert Tracked(fields, k);
        SeenIsTrace(fields, bs, Start(m), k);
      }
    }
  }

  // ---- Fixed-count arrays ------------------------------------------------

  /** Bytes that end a varint. */
  function Terminals(bs: bytes): nat {
    if bs == [] then 0 else (if bs[0] < 128 then 1 else 0) + Terminals(bs[1..])
  }

  /** Number of array entries that one field carries, read off its bytes alone. */
  function WireEntries(l: LType, wt: nat, bs: bytes): nat {
    if wt == WT_STRING && Packable(l) && Payload(bs).Done? then
      PackedEntries(l, Payload(bs).value)
    else 1
  }

  lemma {:induction false} TerminalsOfVarint(bs: bytes)
    requires VarintLength(bs).Some?
    ensures Terminals(bs) == 1 + Terminals(bs[VarintLength(bs).value..])
    decreases |bs|
  {
    if bs[0] >= 128 {
      TerminalsOfVarint(bs[1..]);
      var n := VarintLength(bs).value;
      assert bs[1..][n - 1..] == bs[n..];
    }
  }

  function PackedEntries(l: LType, body: bytes): nat {
    match l
    case Fixed32 => |body| / 4
    case Fixed64 => |body| / 8
    case _ => Terminals(body)
  }

  lemma {:induction false} PackedCounts(f: Field, body: bytes, items: seq<Value>, count: nat)
    requires Packable(f.l) && DecodePacked(f, body, items, count).Some?
    ensures DecodePacked(f, body, items, count).value.count == count + PackedEntries(f.l, body)
    decreases |body|
  {
    if body != [] {
      var r := DecodeValue(f, body, items[count]);
      if !f.l.Fixed32? && !f.l.Fixed64? { TerminalsOfVarint(body); }
      PackedCounts(f, r.rest, items[count := r.value], count + 1);
    }
  }

  lemma {:induction false} StaticCounts(f: Field, wt: nat, bs: bytes, slot: Slot)
    requires f.h.Repeated? && DecodeStatic(f, wt, bs, slot).Done?
    ensures DecodeStatic(f, wt, bs, slot).value.count == slot.count + WireEntries(f.l, wt, bs)
  {
    if wt == WT_STRING && Packable(f.l) {
      PackedCounts(f, Payload(bs).value, slot.items, slot.count);
    }
  }

  /** A fixed-count field on the wire: its table position and how many entries it carries. */
  datatype Arrival = Arrival(k: nat, entries: nat)

  function ArrivalOf(fields: seq<Field>, bs: bytes, pos: nat): (r: seq<Arrival>)
    requires DecodeVarint32(bs).Done? && (fields != [] ==> pos < |fields|)
    ensures |r| <= 1 && forall a :: a in r ==> a.k < |fields|
  {
    var key := DecodeVarint32(bs);
    match Find(fields, pos, key.value / 8)
    case None => []
    case Some(k) =>
      if FixedCount(fields[k]) then [Arrival(k, WireEntries(fields[k].l, key.value % 8, key.rest))] else []
  }

  function Arrivals(fields: seq<Field>, bs: bytes, st: LoopState): (r: seq<Arrival>)
    requires StateOk(fields, st)
    ensures forall a :: a in r ==> a.k < |fields|
    decreases |bs|
  {
    if bs == [] then []
    else match Step(fields, bs, st)
      case Next(st', rest) => ArrivalOf(fields, bs, st.pos) + Arrivals(fields, rest, st')
      case _ => []
  }

  /** Consecutive arrivals of the same field form a run; every run must add up
      to the array size. run and got describe the run already begun. */
  predicate RunsComplete(fields: seq<Field>, arrivals: seq<Arrival>, run: Option<nat>, got: nat)
    requires run.Some? ==> run.value < |fields|
    requires forall a :: a in arrivals ==> a.k < |fields|
  {
    var whole := run.None? || got == fields[run.value].arraySize;
    if arrivals == [] then whole
    else if run == Some(arrivals[0].k) then
      RunsComplete(fields, arrivals[1..], run, got + arrivals[0].entries)
    else whole && RunsComplete(fields, arrivals[1..], Some(arrivals[0].k), arrivals[0].entries)
  }

  lemma {:induction false} FoundCounts(fields: seq<Field>, k: nat, wt: nat, bs: bytes, st: LoopState)
    requires k < |fields| && StateOk(fields, st) && FoundField(fields, k, wt, bs, st).Next?
    ensures var st' := FoundField(fields, k, wt, bs, st).st;
      if FixedCount(fields[k]) then
        (st.fixed == Some(k) || FixedDone(fields, st)) && st'.fixed == Some(k)
        && st'.fixedSize == (if st.fixed == Some(k) then st.fixedSize else 0) + WireEntries(fields[k].l, wt, bs)
      else st'.fixed == st.fixed && st'.fixedSize == st.fixedSize
  {
    var slot := st.msg[SlotIndex(fields, k)];
    if FixedCount(fields[k]) {
      StaticCounts(fields[k], wt, bs, slot.(count := if st.fixed != Some(k) then 0 else st.fixedSize));
    }
  }

  /** What one field does to the run being received. */
  lemma {:induction false} StepCounts(fields: seq<Field>, bs: bytes, st: LoopState)
    requires bs != [] && StateOk(fields, st) && Step(fields, bs, st).Next?
    ensures var st', a := Step(fields, bs, st).st, ArrivalOf(fields, bs, st.pos);
      if a == [] then st'.fixed == st.fixed && st'.fixedSize == st.fixedSize
      else
        && (st.fixed == Some(a[0].k) || FixedDone(fields, st)) && st'.fixed == Some(a[0].k)
        && st'.fixedSize == (if st.fixed == Some(a[0].k) then st.fixedSize else 0) + a[0].entries
  {
    var key := DecodeVarint32(bs);
    match Find(fields, st.pos, key.value / 8) {
      case None =>
      case Some(k) => FoundCounts(fields, k, key.value % 8, key.rest, st);
    }
  }

  lemma {:induction false} RunsStep(fields: seq<Field>, a: seq<Arrival>, later: seq<Arrival>,
                 run: Option<nat>, got: nat, run': Option<nat>, got': nat)
    requires |a| <= 1 && forall x :: x in a + later ==> x.k < |fields|
    requires (run.Some? ==> run.value < |fields|) && (run'.Some? ==> run'.value < |fields|)
    requires if a == [] then run' == run && got' == got
      else
        && (run == Some(a[0].k) || run.None? || got == fields[run.value].arraySize) && run' == Some(a[0].k)
        && got' == (if run == Some(a[0].k) then got else 0) + a[0].entries
    ensures RunsComplete(fields, a + later, run, got) == RunsComplete(fields, later, run', got')
  {
    assert a == [] ==> a + later == later;
    assert a != [] ==> (a + later)[1..] == later && (a + later)[0] == a[0];
  }

  lemma {:induction false} RunsAreCounted(fields: seq<Field>, bs: bytes, st: LoopState)
    requires StateOk(fields, st) && Run(fields, bs, st).Done?
    ensures FixedDone(fields, Run(fields, bs, st).value)
      <==> RunsComplete(fields, Arrivals(fields, bs, st), st.fixed, st.fixedSize)
    decreases |bs|
  {
    if bs != [] && Step(fields, bs, st).Next? {
      var r := Step(fields, bs, st);
      StepCounts(fields, bs, st);
      RunsStep(fields, ArrivalOf(fields, bs, st.pos), Arrivals(fields, r.rest, r.st),
               st.fixed, st.fixedSize, r.st.fixed, r.st.fixedSize);
      RunsAreCounted(fields, r.rest, r.st);
    }
  }

  /** Once the field loop has passed, decoding succeeds exactly when every run of a
      fixed-count array, ended only by another fixed-count field or the end of the
      message, carried arraySize entries and each of the first 64 required fields
      was on the wire. */
  lemma {:induction false} PresenceExact(fields: seq<Field>, bs: bytes, m: Message)
    requires Run(fields, bs, Start(m)).Done?
    ensures DecodeNoinit(fields, bs, m).Done? <==>
      && RunsComplete(fields, Arrivals(fields, bs, Start(m)), None, 0)
      && forall k: nat :: Tracked(fields, k) ==> k in Trace(fields, bs, Start(m))
  {
    RunsAreCounted(fields, bs, Start(m));
    RequiredExact(fields, bs, m);
  }
}
