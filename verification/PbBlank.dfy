/** What a struct holds where nothing was on the wire: the explicit defaults of the table and
    zeros, at every depth. */
module PbBlank {
  import opened Basics
  import opened PbVarint
  import opened PbTypes
  import opened PbDecodeSpec
  import opened PbValid
  import opened PbRoundTrip
  import opened PbOrder

  predicate AllZero(b: bytes) {
    forall i :: 0 <= i < |b| ==> b[i] == 0
  }

  /** A member whose memory is zero. */
  predicate ZeroMember(f: Field, v: Value) {
    match f.l
    case Varint | UVarint | SVarint | Fixed32 | Fixed64 => v == Int(0)
    case Bytes => v.Blob? && v.size == 0 && |v.buf| == f.dataSize - 1 && AllZero(v.buf)
    case String => v.Text? && |v.buf| == f.dataSize && AllZero(v.buf)
    case FixedLengthBytes => v.Inline? && |v.buf| == f.dataSize && AllZero(v.buf)
    case Submessage => false
  }

  /** The table's default or zero, and nothing present; an empty array; no union member.
      A submessage is looked into. */
  predicate Defaulted(f: Field, slot: Slot)
    decreases f, 1
  {
    match f.h
    case Required | Optional =>
      && slot.Single? && !slot.has
      && (if f.l.Submessage? then slot.v.Sub? && f.ptr.SubFields? && AllDefaulted(f.ptr.fields, slot.v.m)
          else match f.ptr case Default(d) => slot.v == d case _ => ZeroMember(f, slot.v))
    case Repeated => slot.Array? && slot.count == 0 && |slot.items| == f.arraySize
    case Oneof => slot.Union? && slot.which == 0
  }

  predicate AllDefaulted(fields: seq<Field>, m: Message)
    decreases fields, 2
  {
    |m| == |fields| && forall k :: 0 <= k < |fields| ==> Defaulted(fields[k], m[SlotIndex(fields, k)])
  }

  lemma {:induction false} DefaultSlotDefaulted(f: Field, prior: Slot)
    requires WellFormedField(f)
    ensures Defaulted(f, DefaultSlot(f, prior))
    decreases f, 1
  {
    match f.h
    case Required | Optional =>
      if f.l.Submessage? {
        var v := if prior.Single? then prior.v else ZeroValue(f);
        SetDefaultsDefaulted(f.ptr.fields, if v.Sub? then v.m else []);
      }
    case Repeated => assert ZeroSlot(f).Array?;
    case Oneof =>
  }

  /** pb_message_set_to_defaults, whatever was in memory. */
  lemma {:induction false} SetDefaultsDefaulted(fields: seq<Field>, prior: Message)
    requires WellFormed(fields)
    ensures AllDefaulted(fields, SetDefaults(fields, prior))
    decreases fields, 2
  {
    var m := SetDefaults(fields, prior);
    forall k | 0 <= k < |fields| ensures Defaulted(fields[k], m[SlotIndex(fields, k)]) {
      var s := SlotIndex(fields, k);
      SlotIsLeader(fields, k);
      DefaultsAt(fields, prior, 0, s);
      assert WellFormedField(fields[s]);
      DefaultSlotDefaulted(fields[s], SlotAt(prior, s));
    }
  }

  // ---- Members at any depth ----------------------------------------------

  /** A submessage of which the struct holds one. */
  predicate Singular(f: Field) {
    f.l.Submessage? && f.ptr.SubFields? && (f.h.Required? || f.h.Optional?)
  }

  /** The table entry at the end of a path that leads through such submessages. */
  function EntryAt(fields: seq<Field>, path: seq<nat>): Option<Field>
    decreases |path|
  {
    if path == [] || path[0] >= |fields| then None
    else if |path| == 1 then Some(fields[path[0]])
    else if Singular(fields[path[0]]) then EntryAt(fields[path[0]].ptr.fields, path[1..])
    else None
  }

  /** And the slot that the struct has for it. */
  function MemberAt(fields: seq<Field>, m: Message, path: seq<nat>): Option<Slot>
    decreases |path|
  {
    if path == [] || path[0] >= |fields| || SlotIndex(fields, path[0]) >= |m| then None
    else
      var slot := m[SlotIndex(fields, path[0])];
      if |path| == 1 then Some(slot)
      else if Singular(fields[path[0]]) && slot.Single? && slot.v.Sub?
      then MemberAt(fields[path[0]].ptr.fields, slot.v.m, path[1..])
      else None
  }

  /** Some field on the wire is for the member at the end of the path, or for another member
      of its union: in the bytes of one of the submessages the path leads through. */
  predicate Mentions(fields: seq<Field>, bs: bytes, st: LoopState, path: seq<nat>)
    requires StateOk(fields, st)
    decreases |bs|, 0
  {
    if bs == [] || path == [] || path[0] >= |fields| then false
    else match Step(fields, bs, st)
      case Next(st', rest) =>
        || (match Find(fields, st.pos, DecodeVarint32(bs).value / 8)
            case None => false
            case Some(j) =>
              && SlotIndex(fields, j) == SlotIndex(fields, path[0])
              && (|path| == 1 || MentionsInside(fields, DecodeVarint32(bs).rest, st, path)))
        || Mentions(fields, rest, st', path)
      case _ => false
  }

  predicate MentionsInside(fields: seq<Field>, bs: bytes, st: LoopState, path: seq<nat>)
    requires StateOk(fields, st) && path != [] && path[0] < |fields|
    decreases |bs|, 1
  {
    var f := fields[path[0]];
    var slot := SlotAt(st.msg, SlotIndex(fields, path[0]));
    Singular(f) && slot.Single? && slot.v.Sub? && Payload(bs).Done? ==>
      Mentions(f.ptr.fields, Payload(bs).value, Start(slot.v.m), path[1..])
  }

  lemma {:induction false} DefaultedAt(fields: seq<Field>, m: Message, path: seq<nat>)
    requires AllDefaulted(fields, m) && EntryAt(fields, path).Some?
    ensures MemberAt(fields, m, path).Some?
    ensures Defaulted(EntryAt(fields, path).value, MemberAt(fields, m, path).value)
    decreases |path|
  {
    var slot := m[SlotIndex(fields, path[0])];
    assert Defaulted(fields[path[0]], slot);
    if |path| > 1 { DefaultedAt(fields[path[0]].ptr.fields, slot.v.m, path[1..]); }
  }

  /** One round of the loop leaves a member alone that its field does not mention. */
  lemma {:induction false} StepKeeps(fields: seq<Field>, bs: bytes, st: LoopState, path: seq<nat>)
    requires bs != [] && StateOk(fields, st) && Step(fields, bs, st).Next? && EntryAt(fields, path).Some?
    requires !Mentions(fields, bs, st, path)
    ensures MemberAt(fields, Step(fields, bs, st).st.msg, path) == MemberAt(fields, st.msg, path)
    decreases |bs|, 0
  {
    match Find(fields, st.pos, DecodeVarint32(bs).value / 8) {
      case None =>
      case Some(j) =>
        var key := DecodeVarint32(bs);
        var s := SlotIndex(fields, path[0]);
        FoundChanges(fields, j, key.value % 8, key.rest, st);
        if SlotIndex(fields, j) == s {
          assert |path| > 1 && !MentionsInside(fields, key.rest, st, path);
          SingularAlone(fields, path[0], j);
          InsideKeeps(fields, key.value % 8, key.rest, st, path);
        }
    }
  }

  lemma {:induction false} FoundChanges(fields: seq<Field>, j: nat, wt: nat, bs: bytes, st: LoopState)
    requires j < |fields| && StateOk(fields, st) && FoundField(fields, j, wt, bs, st).Next?
    ensures var st' := FoundField(fields, j, wt, bs, st).st;
      && SlotIndex(fields, j) < |st.msg|
      && st'.msg == st.msg[SlotIndex(fields, j) := st'.msg[SlotIndex(fields, j)]]
  {
    hide DecodeStatic;
  }

  /** A member that is in no union shares its slot with no other. */
  lemma {:induction false} SingularAlone(fields: seq<Field>, i: nat, j: nat)
    requires i < |fields| && j < |fields| && !fields[i].h.Oneof? && SlotIndex(fields, i) == SlotIndex(fields, j)
    ensures i == j
  {}

  lemma {:induction false} SingularDecodes(f: Field, wt: nat, bs: bytes, slot: Slot)
    requires Singular(f) && DecodeStatic(f, wt, bs, slot).Done?
    ensures slot.Single? && slot.v.Sub? && Payload(bs).Done?
    ensures var r, got := Run(f.ptr.fields, Payload(bs).value, Start(slot.v.m)), DecodeStatic(f, wt, bs, slot).value;
      r.Done? && got.Single? && got.v == Sub(r.value.msg)
  {
    assert DecodeValue(f, bs, slot.v).Done?;
    assert DecodeNoinit(f.ptr.fields, Payload(bs).value, slot.v.m).Done?;
  }

  lemma {:induction false} InsideKeeps(fields: seq<Field>, wt: nat, bs: bytes, st: LoopState, path: seq<nat>)
    requires StateOk(fields, st) && |path| > 1 && EntryAt(fields, path).Some?
    requires FoundField(fields, path[0], wt, bs, st).Next? && !MentionsInside(fields, bs, st, path)
    ensures MemberAt(fields, FoundField(fields, path[0], wt, bs, st).st.msg, path) == MemberAt(fields, st.msg, path)
    decreases |bs|, 1
  {
    var f, s := fields[path[0]], SlotIndex(fields, path[0]);
    var slot := st.msg[s];
    SingularDecodes(f, wt, bs, slot);
    RunKeeps(f.ptr.fields, Payload(bs).value, Start(slot.v.m), path[1..]);
  }

  lemma {:induction false} RunKeeps(fields: seq<Field>, bs: bytes, st: LoopState, path: seq<nat>)
    requires StateOk(fields, st) && Run(fields, bs, st).Done? && EntryAt(fields, path).Some?
    requires !Mentions(fields, bs, st, path)
    ensures MemberAt(fields, Run(fields, bs, st).value.msg, path) == MemberAt(fields, st.msg, path)
    decreases |bs|, 2
  {
    if bs != [] && Step(fields, bs, st).Next? {
      var r := Step(fields, bs, st);
      StepKeeps(fields, bs, st, path);
      RunKeeps(fields, r.rest, r.st, path);
    }
  }

  /** After decoding, a member that the bytes do not mention holds the default of its table
      entry or zero and is not present, at every depth and whatever was in memory. */
  lemma {:induction false} UnmentionedIsDefault(fields: seq<Field>, bs: bytes, memory: Message, path: seq<nat>)
    requires WellFormed(fields) && EntryAt(fields, path).Some? && DecodeMessage(fields, bs, memory).Done?
    requires !Mentions(fields, bs, Start(SetDefaults(fields, memory)), path)
    ensures var got := MemberAt(fields, DecodeMessage(fields, bs, memory).value, path);
      got.Some? && Defaulted(EntryAt(fields, path).value, got.value)
  {
    var blank := SetDefaults(fields, memory);
    SetDefaultsDefaulted(fields, memory);
    DefaultedAt(fields, blank, path);
    RunKeeps(fields, bs, Start(blank), path);
  }
}
