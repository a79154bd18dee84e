/** Whole messages read as lists of fields: which value each member of the struct holds after
    decoding, stated on the fields that were on the wire. */
module PbReading {
  import opened Basics
  import opened PbVarint
  import opened PbTypes
  import opened PbDecodeSpec
  import opened PbValid
  import opened PbWire
  import opened PbRoundTrip
  import opened PbOrder
  import opened PbMeaning
  import opened PbBlank

  predicate AllTyped(fields: seq<Field>, recs: seq<Rec>) {
    forall i :: 0 <= i < |recs| ==> Typed(fields, recs[i])
  }

  /** The loop over a list of fields. */
  function Play(fields: seq<Field>, recs: seq<Rec>, st: LoopState): (r: Option<LoopState>)
    requires StateOk(fields, st)
    ensures r.Some? ==> StateOk(fields, r.value)
    decreases |recs|
  {
    if recs == [] then Some(st)
    else if recs[0].Raw() == [] then None
    else match Step(fields, recs[0].Raw(), st)
      case Next(st', _) => Play(fields, recs[1..], st')
      case _ => None
  }

  lemma {:induction false} StepKnown(fields: seq<Field>, k: nat, r: Rec, rest: bytes, st: LoopState)
    requires DistinctTags(fields) && k < |fields| && fields[k].tag == r.tag && r.Ok() && StateOk(fields, st)
    ensures r.Raw() != []
    ensures Step(fields, r.Raw() + rest, st) == FoundField(fields, k, r.what.Code(), r.what.Raw() + rest, st)
  {
    hide FoundField, SkipField;
    RecKey(r, rest);
    FindUnique(fields, st.pos, |fields|, k);
  }

  /** The table entry of a field on the wire, if there is one. */
  lemma EntryOf(fields: seq<Field>, r: Rec) returns (k: Option<nat>)
    requires Typed(fields, r)
    ensures if k.Some? then k.value < |fields| && fields[k.value].tag == r.tag else Foreign(fields, r)
  {
    if i: nat :| i < |fields| && fields[i].tag == r.tag { return Some(i); }
    return None;
  }

  /** One field, whatever follows it: an unknown one changes nothing; a known one is taken
      exactly when its slot has room for it and no other fixed-count array is incomplete. */
  lemma {:induction false} StepExactly(fields: seq<Field>, k: Option<nat>, r: Rec, rest: bytes, st: LoopState)
    requires WellFormed(fields) && Typed(fields, r) && StateOk(fields, st) && Sized(fields, st.msg)
    requires if k.Some? then k.value < |fields| && fields[k.value].tag == r.tag else Foreign(fields, r)
    ensures r.Raw() != []
    ensures var x := Step(fields, r.Raw() + rest, st);
      match k
      case None => x == Next(st, rest)
      case Some(i) =>
        && (x.Next? <==> MayBegin(fields, i, st) && Takes(fields[i], r.what, SlotFor(fields, i, st)))
        && (x.Next? ==> x.rest == rest && Took(fields, i, r.what, st, x.st))
        && (!x.Next? ==> x.Abort?)
  {
    hide FoundField, Took, Takes, SkipField, Foreign, Step;
    match k {
      case None => UnknownStep(fields, r, rest, st);
      case Some(i) =>
        StepKnown(fields, i, r, rest, st);
        FoundExactly(fields, i, r.what, rest, st);
    }
  }

  lemma {:induction false} StaysSized(fields: seq<Field>, k: nat, c: Content, st: LoopState, st': LoopState)
    requires WellFormed(fields) && k < |fields| && Suits(fields[k], c)
    requires Sized(fields, st.msg) && Took(fields, k, c, st, st')
    ensures Sized(fields, st'.msg)
  {
    forall j | 0 <= j < |fields| ensures SizedFor(fields[j], st'.msg[SlotIndex(fields, j)]) {
      assert SizedFor(fields[j], st.msg[SlotIndex(fields, j)]);
    }
  }

  lemma {:induction false} FirstStep(fields: seq<Field>, k: Option<nat>, r: Rec, st: LoopState)
      returns (next: LoopState)
    requires WellFormed(fields) && Typed(fields, r) && StateOk(fields, st) && Sized(fields, st.msg)
    requires if k.Some? then k.value < |fields| && fields[k.value].tag == r.tag else Foreign(fields, r)
    requires r.Raw() != [] && Step(fields, r.Raw(), st).Next?
    ensures Step(fields, r.Raw(), st) == Next(next, []) && StateOk(fields, next) && Sized(fields, next.msg)
    ensures match k
      case None => next == st
      case Some(i) =>
        && Took(fields, i, r.what, st, next) && MayBegin(fields, i, st)
        && Takes(fields[i], r.what, SlotFor(fields, i, st))
  {
    hide Step, Took, Takes, Foreign;
    assert r.Raw() + [] == r.Raw();
    StepExactly(fields, k, r, [], st);
    next := Step(fields, r.Raw(), st).st;
    if k.Some? { StaysSized(fields, k.value, r.what, st, next); }
  }

  /** The first field of a list: unknown, or one that takes the loop on. */
  lemma {:induction false} FirstRec(fields: seq<Field>, recs: seq<Rec>, st: LoopState)
      returns (k: Option<nat>, next: LoopState)
    requires WellFormed(fields) && AllTyped(fields, recs) && recs != []
    requires StateOk(fields, st) && Sized(fields, st.msg) && Play(fields, recs, st).Some?
    ensures StateOk(fields, next) && Sized(fields, next.msg) && AllTyped(fields, recs[1..])
    ensures Play(fields, recs, st) == Play(fields, recs[1..], next)
    ensures k.None? ==> Foreign(fields, recs[0]) && next == st
    ensures k.Some? ==> k.value < |fields| && fields[k.value].tag == recs[0].tag
    ensures k.Some? ==> Took(fields, k.value, recs[0].what, st, next) && MayBegin(fields, k.value, st)
    ensures k.Some? ==> Takes(fields[k.value], recs[0].what, SlotFor(fields, k.value, st))
  {
    hide Step, Took, Takes, Foreign;
    var r := recs[0];
    k := EntryOf(fields, r);
    next := FirstStep(fields, k, r, st);
  }

  /** The loop on the bytes of a list of fields. */
  lemma {:induction false} PlayRuns(fields: seq<Field>, recs: seq<Rec>, tail: bytes, st: LoopState)
    requires WellFormed(fields) && AllTyped(fields, recs) && StateOk(fields, st) && Sized(fields, st.msg)
    ensures Run(fields, RecBytes(recs) + tail, st)
      == match Play(fields, recs, st) case None => Fail case Some(st') => Run(fields, tail, st')
    decreases |recs|
  {
    hide Step, Took, Takes, Foreign;
    if recs == [] {
      assert [] + tail == tail;
    } else {
      var r, more := recs[0], RecBytes(recs[1..]) + tail;
      Associate(r.Raw(), RecBytes(recs[1..]), tail);
      assert r.Raw() + [] == r.Raw();
      var k := EntryOf(fields, r);
      StepExactly(fields, k, r, [], st);
      StepExactly(fields, k, r, more, st);
      if Step(fields, r.Raw(), st).Next? {
        var next := FirstStep(fields, k, r, st);
        StepExtends(fields, r.Raw(), st, more);
        assert [] + more == more;
        RunStep(fields, r.Raw() + more, st);
        PlayRuns(fields, recs[1..], tail, next);
      } else {
        RunAborts(fields, r.Raw() + more, st);
      }
    }
  }

  lemma {:induction false} RunAborts(fields: seq<Field>, bs: bytes, st: LoopState)
    requires StateOk(fields, st) && bs != [] && Step(fields, bs, st).Abort?
    ensures Run(fields, bs, st) == Fail
  {}

  lemma {:induction false} PlayAppend(fields: seq<Field>, a: seq<Rec>, b: seq<Rec>, st: LoopState)
    requires StateOk(fields, st)
    ensures Play(fields, a + b, st)
      == match Play(fields, a, st) case None => None case Some(st') => Play(fields, b, st')
    decreases |a|
  {
    hide Step;
    if a == [] {
      assert a + b == b;
    } else {
      assert (a + b)[0] == a[0] && (a + b)[1..] == a[1..] + b;
      if a[0].Raw() != [] && Step(fields, a[0].Raw(), st).Next? {
        PlayAppend(fields, a[1..], b, Step(fields, a[0].Raw(), st).st);
      }
    }
  }

  lemma {:induction false} PlaySized(fields: seq<Field>, recs: seq<Rec>, st: LoopState)
    requires WellFormed(fields) && AllTyped(fields, recs)
    requires StateOk(fields, st) && Sized(fields, st.msg) && Play(fields, recs, st).Some?
    ensures Sized(fields, Play(fields, recs, st).value.msg)
    decreases |recs|
  {
    if recs != [] {
      var k, next := FirstRec(fields, recs, st);
      PlaySized(fields, recs[1..], next);
    }
  }

  lemma {:induction false} DefaultsSized(fields: seq<Field>, memory: Message)
    requires WellFormed(fields)
    ensures Sized(fields, SetDefaults(fields, memory))
  {
    SetDefaultsDefaulted(fields, memory);
    var m := SetDefaults(fields, memory);
    forall k | 0 <= k < |fields| ensures SizedFor(fields[k], m[SlotIndex(fields, k)]) {
      assert Defaulted(fields[k], m[SlotIndex(fields, k)]);
    }
  }

  /** pb_decode_noinit on a list of fields: the loop takes them all, the last fixed-count run
      is complete and the required fields came. */
  lemma {:induction false} DecodesList(fields: seq<Field>, recs: seq<Rec>, m: Message)
    requires WellFormed(fields) && AllTyped(fields, recs) && Sized(fields, m)
    ensures DecodeNoinit(fields, RecBytes(recs), m)
      == match Play(fields, recs, Start(m))
         case None => Fail
         case Some(st) => if FixedDone(fields, st) && RequiredSeen(fields, st.seen) then Done(st.msg, []) else Fail
  {
    hide Step, RequiredSeen;
    PlayRuns(fields, recs, [], Start(m));
    assert RecBytes(recs) + [] == RecBytes(recs);
  }

  // ---- The last one wins -------------------------------------------------

  /** A field for a member stored in slot s. */
  predicate IsFor(fields: seq<Field>, s: nat, r: Rec) {
    exists j :: 0 <= j < |fields| && fields[j].tag == r.tag && SlotIndex(fields, j) == s
  }

  lemma {:induction false} SlotKept(fields: seq<Field>, s: nat, recs: seq<Rec>, st: LoopState)
    requires WellFormed(fields) && AllTyped(fields, recs) && s < |fields|
    requires forall i :: 0 <= i < |recs| ==> !IsFor(fields, s, recs[i])
    requires StateOk(fields, st) && Sized(fields, st.msg) && Play(fields, recs, st).Some?
    ensures |Play(fields, recs, st).value.msg| == |fields|
    ensures Play(fields, recs, st).value.msg[s] == st.msg[s]
    decreases |recs|
  {
    hide Puts, Takes;
    if recs != [] {
      var k, next := FirstRec(fields, recs, st);
      assert !IsFor(fields, s, recs[0]);
      SlotKept(fields, s, recs[1..], next);
    }
  }

  /** v is what the wire says, or for a submessage some decoding of its bytes from defaults. */
  ghost predicate EntryIs(f: Field, w: Wire, v: Value)
    requires WellFormedField(f) && Kind(f.l, w) && w.Ok()
  {
    if f.l.Submessage?
    then v.Sub? && exists memory, rest :: DecodeMessage(f.ptr.fields, w.body, memory) == Done(v.m, rest)
    else Means(f, w, v)
  }

  lemma {:induction false} HoldsIsEntry(f: Field, w: Wire, prior: Value, v: Value)
    requires WellFormedField(f) && Kind(f.l, w) && w.Ok() && Holds(f, w, prior, v)
    requires f.l.Submessage? ==> f.h.Repeated? || f.h.Oneof?
    ensures EntryIs(f, w, v)
  {
    if f.l.Submessage? {
      var memory := if f.h.Oneof? then ZeroFrom(f.ptr.fields, 0) else if prior.Sub? then prior.m else [];
      assert DecodeMessage(f.ptr.fields, w.body, memory) == Done(v.m, Inner(f, w.body, prior).rest);
    }
  }

  /** After decoding, a member holds what the last field for it said and is present; a union
      is of the member that came last. */
  lemma {:induction false} LastWins(fields: seq<Field>, recs: seq<Rec>, i: nat, k: nat, memory: Message)
    requires WellFormed(fields) && AllTyped(fields, recs) && DecodeMessage(fields, RecBytes(recs), memory).Done?
    requires i < |recs| && k < |fields| && recs[i].tag == fields[k].tag && !fields[k].h.Repeated?
    requires forall j :: i < j < |recs| ==> !IsFor(fields, SlotIndex(fields, k), recs[j])
    ensures var f, got := fields[k], DecodeMessage(fields, RecBytes(recs), memory);
      && Suits(f, recs[i].what) && got.rest == [] && |got.value| == |fields|
      && var slot, w := got.value[SlotIndex(fields, k)], recs[i].what.w;
         if f.h.Oneof? then slot.Union? && slot.which == f.tag && EntryIs(f, w, slot.v)
         else
           && slot.Single? && (f.h.Optional? && f.sizeOffset != 0 ==> slot.has)
           && (!f.l.Submessage? ==> Means(f, w, slot.v))
  {
    hide Means, Play, DecodeMessage, DecodeNoinit;
    var s := SlotIndex(fields, k);
    var st := DecodedState(fields, recs, memory);
    var before, after := SplitAt(fields, recs, i, k, Start(SetDefaults(fields, memory)));
    SlotKept(fields, s, recs[i + 1..], after);
    var f, w := fields[k], recs[i].what.w;
    assert WellFormedField(f);
    if f.h.Oneof? { HoldsIsEntry(f, w, before.msg[s].v, after.msg[s].v); }
  }

  lemma {:induction false} DecodedState(fields: seq<Field>, recs: seq<Rec>, memory: Message) returns (st: LoopState)
    requires WellFormed(fields) && AllTyped(fields, recs) && DecodeMessage(fields, RecBytes(recs), memory).Done?
    ensures Sized(fields, SetDefaults(fields, memory)) && AllDefaulted(fields, SetDefaults(fields, memory))
    ensures Play(fields, recs, Start(SetDefaults(fields, memory))) == Some(st) && StateOk(fields, st)
    ensures FixedDone(fields, st) && DecodeMessage(fields, RecBytes(recs), memory) == Done(st.msg, [])
  {
    hide Play;
    var m := SetDefaults(fields, memory);
    SetDefaultsDefaulted(fields, memory);
    DefaultsSized(fields, memory);
    DecodesList(fields, recs, m);
    st := Play(fields, recs, Start(m)).value;
  }

  lemma SameEntry(fields: seq<Field>, a: Option<nat>, k: nat, r: Rec)
    requires DistinctTags(fields) && k < |fields| && fields[k].tag == r.tag
    requires if a.Some? then a.value < |fields| && fields[a.value].tag == r.tag else Foreign(fields, r)
    ensures a == Some(k)
  {
    if a.Some? { assert TagAt(fields, a.value) == TagAt(fields, k); }
  }

  /** The states in front of and behind field i of a list. */
  lemma {:induction false} SplitAt(fields: seq<Field>, recs: seq<Rec>, i: nat, k: nat, st: LoopState)
      returns (before: LoopState, after: LoopState)
    requires WellFormed(fields) && AllTyped(fields, recs) && StateOk(fields, st) && Sized(fields, st.msg)
    requires i < |recs| && k < |fields| && recs[i].tag == fields[k].tag && Play(fields, recs, st).Some?
    ensures StateOk(fields, after) && Sized(fields, after.msg) && AllTyped(fields, recs[i + 1..])
    ensures Play(fields, recs, st) == Play(fields, recs[i + 1..], after)
    ensures Suits(fields[k], recs[i].what) && Took(fields, k, recs[i].what, before, after)
  {
    hide Took, Takes, Step;
    var a, b := recs[..i], recs[i..];
    assert recs == a + b;
    PlayAppend(fields, a, b, st);
    before := Play(fields, a, st).value;
    PlaySized(fields, a, st);
    var j, next := FirstRec(fields, b, before);
    after := next;
    assert b[0] == recs[i] && b[1..] == recs[i + 1..] && Typed(fields, recs[i]);
    SameEntry(fields, j, k, recs[i]);
  }

  // ---- Arrays ------------------------------------------------------------

  /** The values on the wire for a member, in order, packed or not. */
  function Told(f: Field, recs: seq<Rec>): seq<Wire> {
    if recs == [] then []
    else (if recs[0].tag == f.tag then recs[0].what.Values() else []) + Told(f, recs[1..])
  }

  /** Values of the member's own layout. */
  predicate OfKind(f: Field, ws: seq<Wire>) {
    forall i :: 0 <= i < |ws| ==> ws[i].Ok() && Kind(f.l, ws[i])
  }

  lemma {:induction false} ToldOfKind(fields: seq<Field>, k: nat, recs: seq<Rec>)
    requires AllTyped(fields, recs) && k < |fields|
    ensures OfKind(fields[k], Told(fields[k], recs))
    decreases |recs|
  {
    if recs != [] {
      assert Typed(fields, recs[0]);
      ToldOfKind(fields, k, recs[1..]);
    }
  }

  /** The values stand from position at on, in order, and the rest is as before. */
  ghost predicate Listed(f: Field, ws: seq<Wire>, at: nat, before: seq<Value>, after: seq<Value>)
    requires WellFormedField(f) && OfKind(f, ws)
  {
    && |after| == |before| && (ws != [] ==> at + |ws| <= |after|)
    && (forall i :: 0 <= i < |ws| ==> EntryIs(f, ws[i], after[at + i]))
    && forall j :: 0 <= j < |after| && !(at <= j < at + |ws|) ==> after[j] == before[j]
  }

  lemma {:induction false} ListedAppend(f: Field, a: seq<Wire>, b: seq<Wire>, at: nat,
                                        x: seq<Value>, y: seq<Value>, z: seq<Value>)
    requires WellFormedField(f) && OfKind(f, a) && OfKind(f, b)
    requires Listed(f, a, at, x, y) && Listed(f, b, at + |a|, y, z)
    ensures Listed(f, a + b, at, x, z)
  {
    hide EntryIs;
    forall i | 0 <= i < |a + b| ensures EntryIs(f, (a + b)[i], z[at + i]) {
      if i < |a| {
        assert z[at + i] == y[at + i] && EntryIs(f, a[i], y[at + i]);
      } else {
        assert EntryIs(f, b[i - |a|], z[at + |a| + (i - |a|)]);
      }
    }
  }

  /** What one field does to an array. */
  lemma {:induction false} PutsList(f: Field, c: Content, slot: Slot, got: Slot)
    requires WellFormedField(f) && f.h.Repeated? && Suits(f, c) && Takes(f, c, slot) && Puts(f, c, slot, got)
    ensures OfKind(f, c.Values()) && slot.Array? && got.Array? && got.count == slot.count + |c.Values()|
    ensures c.Values() != [] ==> got.count <= f.arraySize
    ensures Listed(f, c.Values(), slot.count, slot.items, got.items)
  {
    hide Means, Fits, AllInRange, Holds, EntryIs, Inner;
    match c
    case One(w) => OneIsList(f, w, slot, got);
    case Packed(_, ws) => StoredIsListed(f, ws, slot.count, slot.items, got.items);
  }

  lemma {:induction false} OneIsList(f: Field, w: Wire, slot: Slot, got: Slot)
    requires WellFormedField(f) && f.h.Repeated? && Kind(f.l, w) && w.Ok()
    requires slot.Array? && got.Array? && slot.count < |slot.items| == |got.items|
    requires Holds(f, w, slot.items[slot.count], got.items[slot.count])
    requires forall j :: 0 <= j < |got.items| && j != slot.count ==> got.items[j] == slot.items[j]
    ensures Listed(f, [w], slot.count, slot.items, got.items)
  {
    hide Means, Holds, EntryIs;
    HoldsIsEntry(f, w, slot.items[slot.count], got.items[slot.count]);
  }

  lemma {:induction false} StoredIsListed(f: Field, ws: seq<Wire>, at: nat, before: seq<Value>, after: seq<Value>)
    requires WellFormedField(f) && Scalar(f.l) && OfKind(f, ws) && StoredAt(f, ws, at, before, after)
    ensures Listed(f, ws, at, before, after)
  {
    hide Means;
  }

  /** An entry that is not of a union shares its slot with no other. */
  lemma {:induction false} OwnSlot(fields: seq<Field>, k: nat, j: nat)
    requires k < |fields| && j < |fields| && !fields[k].h.Oneof? && j != k
    ensures SlotIndex(fields, k) == k && SlotIndex(fields, j) != k
  {}

  /** An array slot with these values added at its end. */
  ghost predicate Grew(f: Field, ws: seq<Wire>, a: Slot, b: Slot)
    requires WellFormedField(f) && OfKind(f, ws)
  {
    && a.Array? && b.Array? && b.count == a.count + |ws| && (ws != [] ==> b.count <= f.arraySize)
    && Listed(f, ws, a.count, a.items, b.items)
  }

  lemma {:induction false} GrewOn(f: Field, ws: seq<Wire>, more: seq<Wire>, a: Slot, b: Slot, c: Slot)
    requires WellFormedField(f) && OfKind(f, ws) && OfKind(f, more) && Grew(f, ws, a, b) && Grew(f, more, b, c)
    ensures Grew(f, ws + more, a, c)
  {
    hide Listed;
    ListedAppend(f, ws, more, a.count, a.items, b.items, c.items);
    if more == [] { SameLength(f, ws, a, b, c); }
  }

  lemma {:induction false} SameLength(f: Field, ws: seq<Wire>, a: Slot, b: Slot, c: Slot)
    requires WellFormedField(f) && OfKind(f, ws) && Grew(f, ws, a, b) && Grew(f, [], b, c)
    ensures ws + [] == ws && c.count == b.count
  {}

  lemma {:induction false} FirstGrows(fields: seq<Field>, k: nat, recs: seq<Rec>, st: LoopState)
      returns (ws: seq<Wire>, next: LoopState)
    requires WellFormed(fields) && AllTyped(fields, recs) && recs != [] && k < |fields|
    requires fields[k].h.Repeated? && !FixedCount(fields[k]) && StateOk(fields, st) && Sized(fields, st.msg)
    requires st.msg[k].Array? && Play(fields, recs, st).Some?
    ensures StateOk(fields, next) && Sized(fields, next.msg) && AllTyped(fields, recs[1..])
    ensures Play(fields, recs, st) == Play(fields, recs[1..], next)
    ensures WellFormedField(fields[k]) && OfKind(fields[k], ws) && Grew(fields[k], ws, st.msg[k], next.msg[k])
    ensures Told(fields[k], recs) == ws + Told(fields[k], recs[1..]) && next.msg[k].Array?
  {
    hide Puts, Takes, Listed, Play, Foreign;
    var f, j := fields[k], None;
    assert WellFormedField(f);
    j, next := FirstRec(fields, recs, st);
    if j == Some(k) {
      ws := recs[0].what.Values();
      PutsList(f, recs[0].what, st.msg[k], next.msg[k]);
    } else {
      ws := [];
      OtherTag(fields, k, j, recs[0]);
      if j.Some? { OwnSlot(fields, k, j.value); }
      GrewNone(f, st.msg[k]);
    }
  }

  lemma {:induction false} ListGrows(fields: seq<Field>, k: nat, recs: seq<Rec>, st: LoopState)
    requires WellFormed(fields) && AllTyped(fields, recs) && k < |fields|
    requires fields[k].h.Repeated? && !FixedCount(fields[k])
    requires StateOk(fields, st) && Sized(fields, st.msg) && st.msg[k].Array? && Play(fields, recs, st).Some?
    ensures WellFormedField(fields[k]) && OfKind(fields[k], Told(fields[k], recs))
    ensures |Play(fields, recs, st).value.msg| == |fields|
    ensures Grew(fields[k], Told(fields[k], recs), st.msg[k], Play(fields, recs, st).value.msg[k])
    decreases |recs|
  {
    hide Grew;
    var f := fields[k];
    assert WellFormedField(f);
    if recs == [] {
      GrewNone(f, st.msg[k]);
    } else {
      var ws, next := FirstGrows(fields, k, recs, st);
      ListGrows(fields, k, recs[1..], next);
      GrewOn(f, ws, Told(f, recs[1..]), st.msg[k], next.msg[k], Play(fields, recs, st).value.msg[k]);
    }
  }

  lemma {:induction false} GrewNone(f: Field, slot: Slot)
    requires WellFormedField(f) && slot.Array?
    ensures Grew(f, [], slot, slot)
  {}

  lemma OtherTag(fields: seq<Field>, k: nat, j: Option<nat>, r: Rec)
    requires DistinctTags(fields) && k < |fields| && j != Some(k)
    requires if j.Some? then j.value < |fields| && fields[j.value].tag == r.tag else Foreign(fields, r)
    ensures fields[k].tag != r.tag
  {
    if j.Some? { assert TagAt(fields, k) != TagAt(fields, j.value); }
  }

  /** After decoding, an array member holds the values on the wire in order, whether each came
      with its own key, packed or some of each, and its count is their number. */
  lemma {:induction false} ArrayReads(fields: seq<Field>, recs: seq<Rec>, k: nat, memory: Message)
    requires WellFormed(fields) && AllTyped(fields, recs) && DecodeMessage(fields, RecBytes(recs), memory).Done?
    requires k < |fields| && fields[k].h.Repeated? && !FixedCount(fields[k])
    ensures var f, told, got := fields[k], Told(fields[k], recs), DecodeMessage(fields, RecBytes(recs), memory);
      && OfKind(f, told) && got.rest == [] && |got.value| == |fields|
      && var slot := got.value[SlotIndex(fields, k)];
         && slot.Array? && slot.count == |told| <= f.arraySize == |slot.items|
         && forall i :: 0 <= i < |told| ==> EntryIs(f, told[i], slot.items[i])
  {
    hide DecodeMessage, EntryIs, Play;
    var st := DecodedState(fields, recs, memory);
    var m := SetDefaults(fields, memory);
    assert SlotIndex(fields, k) == k && Defaulted(fields[k], m[SlotIndex(fields, k)]);
    ListGrows(fields, k, recs, Start(m));
    var told := Told(fields[k], recs);
    forall i | 0 <= i < |told| ensures EntryIs(fields[k], told[i], st.msg[k].items[i]) {
      assert EntryIs(fields[k], told[i], st.msg[k].items[0 + i]);
    }
  }

  // ---- Fixed-count arrays ------------------------------------------------

  /** The last n of the values stand in front of the array. */
  ghost predicate Ends(f: Field, told: seq<Wire>, n: nat, items: seq<Value>)
    requires WellFormedField(f) && OfKind(f, told)
  {
    && n <= |told| && n <= |items|
    && forall i :: 0 <= i < n ==> EntryIs(f, told[|told| - n + i], items[i])
  }

  lemma {:induction false} EndsGrow(f: Field, told: seq<Wire>, n: nat, x: seq<Value>, ws: seq<Wire>, y: seq<Value>)
    requires WellFormedField(f) && OfKind(f, told) && OfKind(f, ws)
    requires Ends(f, told, n, x) && Listed(f, ws, n, x, y)
    ensures OfKind(f, told + ws) && Ends(f, told + ws, n + |ws|, y)
  {
    hide EntryIs;
    var all, m := told + ws, n + |ws|;
    var from: nat := |told| - n;
    forall i | 0 <= i < m ensures EntryIs(f, all[from + i], y[i]) {
      if i < n {
        EndAt(f, told, n, x, i);
      } else {
        ListAt(f, ws, n, x, y, i - n);
        assert all[from + i] == ws[i - n];
      }
    }
  }

  lemma {:induction false} EndAt(f: Field, told: seq<Wire>, n: nat, x: seq<Value>, i: nat)
    requires WellFormedField(f) && OfKind(f, told) && Ends(f, told, n, x) && i < n
    ensures EntryIs(f, told[|told| - n + i], x[i])
  {
    hide EntryIs;
  }

  lemma {:induction false} ListAt(f: Field, ws: seq<Wire>, at: nat, x: seq<Value>, y: seq<Value>, i: nat)
    requires WellFormedField(f) && OfKind(f, ws) && Listed(f, ws, at, x, y) && i < |ws|
    ensures EntryIs(f, ws[i], y[at + i])
  {
    hide EntryIs;
  }

  /** Entries that the latest run of a fixed-count array has brought. */
  function Latest(f: Field, k: nat, told: seq<Wire>, st: LoopState): nat {
    if st.fixed == Some(k) then st.fixedSize else if told == [] then 0 else f.arraySize
  }

  ghost predicate FixedSo(fields: seq<Field>, k: nat, told: seq<Wire>, st: LoopState) {
    && k < |fields| == |st.msg| && WellFormedField(fields[k]) && OfKind(fields[k], told) && FixedCount(fields[k])
    && st.msg[k].Array? && Ends(fields[k], told, Latest(fields[k], k, told, st), st.msg[k].items)
  }

  /** A field for the array itself adds its values to the run, or begins one. */
  lemma {:induction false} FixedTook(fields: seq<Field>, k: nat, told: seq<Wire>, c: Content, st: LoopState,
                                     next: LoopState)
    requires WellFormed(fields) && FixedSo(fields, k, told, st) && Suits(fields[k], c)
    requires Took(fields, k, c, st, next) && Takes(fields[k], c, SlotFor(fields, k, st))
    ensures FixedSo(fields, k, told + c.Values(), next)
  {
    hide Puts, Takes, Listed, Ends;
    var f, ws := fields[k], c.Values();
    var slot, got := SlotFor(fields, k, st), next.msg[k].(count := next.fixedSize);
    PutsList(f, c, slot, got);
    assert Ends(f, told, Counter(k, st), st.msg[k].items) by { NoneEnd(f, told, st.msg[k].items); }
    EndsGrow(f, told, Counter(k, st), st.msg[k].items, ws, next.msg[k].items);
  }

  lemma {:induction false} NoneEnd(f: Field, told: seq<Wire>, items: seq<Value>)
    requires WellFormedField(f) && OfKind(f, told)
    ensures Ends(f, told, 0, items)
  {}

  /** Any other field leaves it alone, and ends its run only if that is complete. */
  lemma {:induction false} FixedLeft(fields: seq<Field>, k: nat, told: seq<Wire>, j: nat, c: Content, st: LoopState,
                                     next: LoopState)
    requires WellFormed(fields) && FixedSo(fields, k, told, st) && j < |fields| && j != k && Suits(fields[j], c)
    requires StateOk(fields, st) && MayBegin(fields, j, st) && Took(fields, j, c, st, next)
    ensures FixedSo(fields, k, told, next)
  {
    hide Puts;
    OwnSlot(fields, k, j);
  }

  lemma {:induction false} FixedGoesOn(fields: seq<Field>, k: nat, told: seq<Wire>, recs: seq<Rec>, st: LoopState)
    requires WellFormed(fields) && AllTyped(fields, recs) && StateOk(fields, st) && Sized(fields, st.msg)
    requires Play(fields, recs, st).Some? && FixedSo(fields, k, told, st)
    ensures FixedSo(fields, k, told + Told(fields[k], recs), Play(fields, recs, st).value)
    decreases |recs|
  {
    hide FixedSo, Took, Takes, Foreign;
    var f := KFixed(fields, k, told, st);
    if recs == [] {
      assert told + [] == told;
    } else {
      var j, next := FirstRec(fields, recs, st);
      var more := Told(f, recs[1..]);
      if j == Some(k) {
        var ws := recs[0].what.Values();
        FixedTook(fields, k, told, recs[0].what, st, next);
        FixedGoesOn(fields, k, told + ws, recs[1..], next);
        assert told + ws + more == told + (ws + more);
      } else {
        OtherTag(fields, k, j, recs[0]);
        if j.Some? { FixedLeft(fields, k, told, j.value, recs[0].what, st, next); }
        FixedGoesOn(fields, k, told, recs[1..], next);
        assert [] + more == more;
      }
    }
  }

  lemma KFixed(fields: seq<Field>, k: nat, told: seq<Wire>, st: LoopState) returns (f: Field)
    requires FixedSo(fields, k, told, st)
    ensures k < |fields| && f == fields[k]
  {
    f := fields[k];
  }

  /** After decoding, a fixed-count array that the wire mentions holds the last arraySize values
      on the wire, in order: each run replaces the one before it, whole. */
  lemma {:induction false} FixedArrayReads(fields: seq<Field>, recs: seq<Rec>, k: nat, memory: Message)
    requires WellFormed(fields) && AllTyped(fields, recs) && DecodeMessage(fields, RecBytes(recs), memory).Done?
    requires k < |fields| && FixedCount(fields[k])
    ensures var f, told, got := fields[k], Told(fields[k], recs), DecodeMessage(fields, RecBytes(recs), memory);
      && OfKind(f, told) && got.rest == [] && |got.value| == |fields| && got.value[SlotIndex(fields, k)].Array?
      && var items := got.value[SlotIndex(fields, k)].items;
         |items| == f.arraySize && (told != [] ==> Ends(f, told, f.arraySize, items))
  {
    hide DecodeMessage, EntryIs, Play, Took, Takes, Ends;
    var st := DecodedState(fields, recs, memory);
    var m := SetDefaults(fields, memory);
    assert SlotIndex(fields, k) == k;
    FixedBegins(fields, k, m);
    PlaySized(fields, recs, Start(m));
    assert SizedFor(fields[k], st.msg[SlotIndex(fields, k)]);
    FixedGoesOn(fields, k, [], recs, Start(m));
    assert [] + Told(fields[k], recs) == Told(fields[k], recs);
    FixedEnds(fields, k, Told(fields[k], recs), st);
  }

  lemma {:induction false} FixedBegins(fields: seq<Field>, k: nat, m: Message)
    requires WellFormed(fields) && k < |fields| && FixedCount(fields[k]) && AllDefaulted(fields, m)
    ensures FixedSo(fields, k, [], Start(m))
  {
    assert SlotIndex(fields, k) == k && Defaulted(fields[k], m[SlotIndex(fields, k)]) && WellFormedField(fields[k]);
  }

  lemma FixedEnds(fields: seq<Field>, k: nat, told: seq<Wire>, st: LoopState)
    requires FixedSo(fields, k, told, st) && StateOk(fields, st) && FixedDone(fields, st)
    ensures told != [] ==> Ends(fields[k], told, fields[k].arraySize, st.msg[k].items)
  {
    hide Ends;
  }

  // ---- Submessages -------------------------------------------------------

  /** One message decoded on top of the other. */
  function Merged(fields: seq<Field>, bodies: seq<Wire>, m: Message): Option<Message>
    requires forall i :: 0 <= i < |bodies| ==> bodies[i].L?
    decreases |bodies|
  {
    if bodies == [] then Some(m)
    else match DecodeNoinit(fields, bodies[0].body, m)
      case Fail => None
      case Done(m', _) => Merged(fields, bodies[1..], m')
  }

  /** The first field of a list, as far as a submessage is concerned. */
  lemma {:induction false} FirstMerges(fields: seq<Field>, k: nat, recs: seq<Rec>, st: LoopState, m: Message)
      returns (ws: seq<Wire>, next: LoopState, m': Message)
    requires WellFormed(fields) && AllTyped(fields, recs) && recs != [] && k < |fields| && Singular(fields[k])
    requires StateOk(fields, st) && Sized(fields, st.msg) && Play(fields, recs, st).Some?
    requires st.msg[k].Single? && st.msg[k].v == Sub(m)
    ensures StateOk(fields, next) && Sized(fields, next.msg) && AllTyped(fields, recs[1..])
    ensures Play(fields, recs, st) == Play(fields, recs[1..], next)
    ensures next.msg[k].Single? && next.msg[k].v == Sub(m')
    ensures Told(fields[k], recs) == ws + Told(fields[k], recs[1..])
    ensures |ws| <= 1 && OfKind(fields[k], ws)
    ensures if ws == [] then m' == m else
      (var r := DecodeNoinit(fields[k].ptr.fields, ws[0].body, m); r.Done? && r.value == m')
  {
    hide Foreign, DecodeNoinit, Play, Takes;
    var j := None;
    j, next := FirstRec(fields, recs, st);
    if j == Some(k) {
      ws := [recs[0].what.w];
      assert Suits(fields[k], recs[0].what);
      m' := next.msg[k].v.m;
    } else {
      OtherTag(fields, k, j, recs[0]);
      if j.Some? { OwnSlot(fields, k, j.value); }
      ws, m' := [], m;
    }
  }

  lemma {:induction false} Merges(fields: seq<Field>, k: nat, recs: seq<Rec>, st: LoopState, m: Message)
    requires WellFormed(fields) && AllTyped(fields, recs) && k < |fields| && Singular(fields[k])
    requires StateOk(fields, st) && Sized(fields, st.msg) && Play(fields, recs, st).Some?
    requires st.msg[k].Single? && st.msg[k].v == Sub(m)
    ensures OfKind(fields[k], Told(fields[k], recs)) && |Play(fields, recs, st).value.msg| == |fields|
    ensures var slot := Play(fields, recs, st).value.msg[k];
      && slot.Single? && slot.v.Sub?
      && Merged(fields[k].ptr.fields, Told(fields[k], recs), m) == Some(slot.v.m)
    decreases |recs|
  {
    hide DecodeNoinit;
    if recs != [] {
      var ws, next, m' := FirstMerges(fields, k, recs, st, m);
      var more := Told(fields[k], recs[1..]);
      Merges(fields, k, recs[1..], next, m');
      if ws == [] { assert ws + more == more; } else { assert (ws + more)[1..] == more && (ws + more)[0] == ws[0]; }
    }
  }

  /** After decoding, a submessage holds the messages on the wire for it, each decoded on top
      of the ones before, beginning with the defaults. */
  lemma {:induction false} SubmessageReads(fields: seq<Field>, recs: seq<Rec>, k: nat, memory: Message)
      returns (blank: Message)
    requires WellFormed(fields) && AllTyped(fields, recs) && DecodeMessage(fields, RecBytes(recs), memory).Done?
    requires k < |fields| && Singular(fields[k])
    ensures AllDefaulted(fields[k].ptr.fields, blank)
    ensures var f, told, got := fields[k], Told(fields[k], recs), DecodeMessage(fields, RecBytes(recs), memory);
      && OfKind(f, told) && got.rest == [] && |got.value| == |fields|
      && var slot := got.value[SlotIndex(fields, k)];
         slot.Single? && slot.v.Sub? && Merged(f.ptr.fields, told, blank) == Some(slot.v.m)
  {
    hide DecodeMessage, Play;
    var st := DecodedState(fields, recs, memory);
    var m := SetDefaults(fields, memory);
    assert SlotIndex(fields, k) == k && Defaulted(fields[k], m[SlotIndex(fields, k)]);
    blank := m[k].v.m;
    Merges(fields, k, recs, Start(m), blank);
  }

  // ---- Unknown fields anywhere -------------------------------------------

  predicate HasEntry(fields: seq<Field>, tag: nat) {
    exists j :: 0 <= j < |fields| && fields[j].tag == tag
  }

  /** The fields that the table has entries for. */
  function Known(fields: seq<Field>, recs: seq<Rec>): seq<Rec> {
    if recs == [] then []
    else (if HasEntry(fields, recs[0].tag) then [recs[0]] else []) + Known(fields, recs[1..])
  }

  lemma {:induction false} KnownTyped(fields: seq<Field>, recs: seq<Rec>)
    requires AllTyped(fields, recs)
    ensures AllTyped(fields, Known(fields, recs))
    decreases |recs|
  {
    if recs != [] { KnownTyped(fields, recs[1..]); }
  }

  lemma {:induction false} KnownPlays(fields: seq<Field>, recs: seq<Rec>, st: LoopState)
    requires WellFormed(fields) && AllTyped(fields, recs) && StateOk(fields, st) && Sized(fields, st.msg)
    ensures Play(fields, Known(fields, recs), st) == Play(fields, recs, st)
    decreases |recs|
  {
    hide Step, Took, Takes;
    if recs != [] {
      var r, more := recs[0], Known(fields, recs[1..]);
      var k := EntryOf(fields, r);
      assert r.Raw() + [] == r.Raw();
      StepExactly(fields, k, r, [], st);
      if k.None? {
        assert [] + more == more;
        KnownPlays(fields, recs[1..], st);
      } else {
        assert ([r] + more)[1..] == more;
        if Step(fields, r.Raw(), st).Next? {
          var next := FirstStep(fields, k, r, st);
          KnownPlays(fields, recs[1..], next);
        }
      }
    }
  }

  /** Unknown fields, however many and wherever they stand, change neither whether a message
      is accepted nor what is stored. */
  lemma {:induction false} OnlyKnownCount(fields: seq<Field>, recs: seq<Rec>, m: Message)
    requires WellFormed(fields) && AllTyped(fields, recs) && Sized(fields, m)
    ensures DecodeNoinit(fields, RecBytes(recs), m) == DecodeNoinit(fields, RecBytes(Known(fields, recs)), m)
  {
    KnownTyped(fields, recs);
    KnownPlays(fields, recs, Start(m));
    DecodesList(fields, recs, m);
    DecodesList(fields, Known(fields, recs), m);
  }
}
