/** pb_decode.c: the decoder. Each reader is proved to agree with the
    specification and to account for every byte it consumes. */
module PbDecoder {
  import opened Basics
  import opened Bits
  import opened PbVarint
  import opened PbTypes
  import opened PbDecodeSpec
  import opened PbValid
  import opened PbBlank
  import opened PbReader
  import opened PbRequired
  import PbIterator
  import PbOrder

  /** What a reader of T must do on a stream that held input. */
  ghost predicate Agrees<T>(s: IStream, ok: bool, value: T, r: Parsed<T>)
    requires s.Valid()
    reads s
  {
    match r
    case Fail => !ok
    case Done(v, rest) => ok && value == v && s.Rest() == rest
  }

  // ---- Values ------------------------------------------------------------

  /** What an integer member keeps of a decoded varint, if it fits. */
  ghost function Clamped(f: Field, u: nat): Option<Value>
    requires u < TWO_64
  {
    match f.l
    case Varint => ClampSigned(f.dataSize, ToSigned(u, if f.dataSize == 8 then TWO_64 else TWO_32))
    case SVarint => ClampSigned(f.dataSize, UnZigZag(u))
    case _ => ClampUnsigned(f.dataSize, u)
  }

  /** pb_dec_varint, pb_dec_uvarint and pb_dec_svarint after the varint: store in the
      member's own width and check that nothing was lost. */
  method StoreInt(f: Field, value: nat) returns (ok: bool, v: Value)
    requires value < TWO_64 && Modulus(f.dataSize) != 0 && (f.l.Varint? || f.l.UVarint? || f.l.SVarint?)
    ensures if ok then Clamped(f, value) == Some(v) else Clamped(f, value) == None
  {
    var m := Modulus(f.dataSize);
    if f.l.UVarint? {
      var kept := value % m;
      return kept == value, Int(kept);
    }
    var wide := if f.l.SVarint? then UnZigZag(value)
      else if f.dataSize == 8 then ToSigned(value, TWO_64) else ToSigned(value, TWO_32);
    var kept := ToSigned(wide % m, m);
    return kept == wide, Int(kept);
  }

  method ReadInt(s: IStream, f: Field, ghost prior: Value) returns (ok: bool, v: Value)
    requires s.Valid() && (f.l.Varint? || f.l.UVarint? || f.l.SVarint?)
    modifies s
    ensures Ran(s, ok) && Agrees(s, ok, v, DecodeValue(f, old(s.Rest()), prior))
  {
    ghost var input := s.Rest();
    var value: nat;
    ok, value := ReadVarint(s);
    v := Int(0);
    assert DecodeVarint(input).Done? ==>
      DecodeValue(f, input, prior) == Stored(Clamped(f, DecodeVarint(input).value), DecodeVarint(input).rest);
    if !ok { return; }
    if Modulus(f.dataSize) == 0 {
      s.SetError(InvalidDataSize);
      return false, v;
    }
    ok, v := StoreInt(f, value);
    if !ok { s.SetError(IntegerTooLarge); }
  }

  /** pb_decode_fixed32 and pb_decode_fixed64. */
  method ReadFixed(s: IStream, n: nat) returns (ok: bool, v: nat)
    requires s.Valid()
    modifies s
    ensures Ran(s, ok)
    ensures match Read(old(s.Rest()), n)
      case Fail => !ok
      case Done(b, rest) => ok && v == FromLittleEndian(b) && s.Rest() == rest
  {
    var b: bytes;
    ok, b := Take(s, n);
    v := 0;
    if ok { v := Assemble(b); }
  }

  /** Ors the bytes together, least significant first. */
  method Assemble(b: bytes) returns (v: nat)
    ensures v == FromLittleEndian(b)
  {
    v := 0;
    var i := 0;
    assert b[..0] == [];
    while i < |b|
      invariant i <= |b| && v == FromLittleEndian(b[..i]) && v < Pow2(8 * i)
    {
      BytesSnoc(b, i, v);
      v := Or(v, Shl(b[i], 8 * i));
      i := i + 1;
    }
    assert b[..|b|] == b;
  }

  lemma {:induction false} BytesSnoc(b: bytes, i: nat, v: nat)
    requires i < |b| && v == FromLittleEndian(b[..i]) && v < Pow2(8 * i)
    ensures Or(v, Shl(b[i], 8 * i)) == FromLittleEndian(b[..i + 1]) < Pow2(8 * (i + 1))
  {
    ShlValue(b[i], 8 * i);
    OrDisjoint(v, b[i], 8 * i);
    LittleEndianSnoc(b, i);
    assert Pow2(8 * (i + 1)) == 256 * Pow2(8 * i) by { Pow2Add(8, 8 * i); assert Pow2(8) == 256; }
    TopByte(v, b[i], Pow2(8 * i));
  }

  lemma TopByte(v: nat, b: byte, p: nat)
    requires v < p
    ensures v + b * p < 256 * p
  {}

  lemma {:induction false} LittleEndianSnoc(b: bytes, i: nat)
    requires i < |b|
    ensures FromLittleEndian(b[..i + 1]) == FromLittleEndian(b[..i]) + b[i] * Pow2(8 * i)
    decreases i
  {
    if i > 0 {
      LittleEndianSnoc(b[1..], i - 1);
      assert b[..i][1..] == b[1..][..i - 1] && b[..i + 1][1..] == b[1..][..i];
      Pow2Add(8, 8 * (i - 1));
      assert Pow2(8) == 256;
      Factor256(b[i], Pow2(8 * (i - 1)));
    } else {
      assert b[..1][1..] == [];
    }
  }

  lemma Factor256(g: nat, p: nat)
    ensures g * (256 * p) == 256 * (g * p)
  {}

  /** pb_dec_bytes, pb_dec_string and pb_dec_fixed_length_bytes. */
  method ReadBuffer(s: IStream, f: Field, prior: Value) returns (ok: bool, v: Value)
    requires s.Valid() && (f.l.Bytes? || f.l.String? || f.l.FixedLengthBytes?)
    modifies s
    ensures Ran(s, ok) && Agrees(s, ok, v, DecodeValue(f, old(s.Rest()), prior))
  {
    v := prior;
    var size: nat, eof;
    ok, size, eof := ReadVarint32Eof(s);
    if !ok { return; }
    if !f.l.String? && size > PB_SIZE_MAX {
      s.SetError(BytesOverflow);
      return false, v;
    }
    if f.l.FixedLengthBytes? {
      if size == 0 { return true, Inline(Zeros(f.dataSize)); }
      if size != f.dataSize {
        s.SetError(IncorrectFixedLength);
        return false, v;
      }
    } else if size + 1 > f.dataSize {
      s.SetError(if f.l.Bytes? then BytesOverflow else StringOverflow);
      return false, v;
    }
    var b: bytes;
    ok, b := Take(s, size);
    if !ok { return; }
    match f.l
    case Bytes => v := Blob(size, b + Leftover(if prior.Blob? then prior.buf else [], f.dataSize - 1, size));
    case String => v := Text(b + [0] + Leftover(if prior.Text? then prior.buf else [], f.dataSize, size + 1));
    case _ => v := Inline(b);
  }

  /** The function in PB_DECODERS for the field's type. */
  method ReadValue(s: IStream, f: Field, prior: Value) returns (ok: bool, v: Value)
    requires s.Valid()
    modifies s
    ensures Ran(s, ok) && Agrees(s, ok, v, DecodeValue(f, old(s.Rest()), prior))
    decreases s.bytesLeft, 1
  {
    match f.l
    case Varint | UVarint | SVarint => ok, v := ReadInt(s, f, prior);
    case Fixed32 =>
      var u: nat;
      ok, u := ReadFixed(s, 4);
      v := Int(u);
    case Fixed64 =>
      var u: nat;
      ok, u := ReadFixed(s, 8);
      v := Int(u);
    case Bytes | String | FixedLengthBytes => ok, v := ReadBuffer(s, f, prior);
    case Submessage =>
      SubmessageValue(f, s.Rest(), prior);
      ok, v := ReadSubmessage(s, f, prior);
  }

  /** pb_dec_submessage: array entries are initialised here, other members were before. */
  method ReadSubmessage(s: IStream, f: Field, prior: Value) returns (ok: bool, v: Value)
    requires s.Valid() && f.l.Submessage?
    modifies s
    ensures Ran(s, ok) && Agrees(s, ok, v, SubmessageResult(f, old(s.Rest()), prior))
    decreases s.bytesLeft, 0
  {
    hide BodyResult, DecodeNoinit, DecodeMessage, DecodeVarint32, WellFormedField;
    v := prior;
    var sub: IStream;
    ok, sub := MakeSubstream(s);
    if !ok { return; }
    if !f.ptr.SubFields? {
      s.SetError(InvalidDescriptor);
      return false, v;
    }
    var status;
    status, v := ReadBody(sub, f, prior);
    ok := CloseSubstream(s, sub);
    return status, v;
  }

  ghost function BodyResult(f: Field, body: bytes, prior: Value): Parsed<Message>
    requires f.ptr.SubFields?
  {
    if f.h.Repeated? then DecodeMessage(f.ptr.fields, body, if prior.Sub? then prior.m else [])
    else if prior.Sub? then DecodeNoinit(f.ptr.fields, body, prior.m)
    else Fail
  }

  ghost function SubmessageResult(f: Field, bs: bytes, prior: Value): Parsed<Value> {
    match Payload(bs)
    case Fail => Fail
    case Done(body, rest) =>
      if !f.ptr.SubFields? then Fail else
      match BodyResult(f, body, prior)
      case Fail => Fail
      case Done(m, _) => Done(Sub(m), rest)
  }

  lemma {:induction false} SubmessageValue(f: Field, bs: bytes, prior: Value)
    requires f.l.Submessage?
    ensures DecodeValue(f, bs, prior) == SubmessageResult(f, bs, prior)
  {}

  method ReadBody(sub: IStream, f: Field, prior: Value) returns (ok: bool, v: Value)
    requires sub.Valid() && f.l.Submessage? && f.ptr.SubFields?
    modifies sub
    ensures Ran(sub, ok)
    ensures match BodyResult(f, old(sub.Rest()), prior)
      case Fail => !ok
      case Done(m, _) => ok && v == Sub(m)
    decreases sub.bytesLeft, 7
  {
    var m: Message := [];
    ok := false;
    if f.h.Repeated? {
      ok, m := Decode(sub, f.ptr.fields, if prior.Sub? then prior.m else []);
    } else if prior.Sub? {
      ok, m := DecodeInto(sub, f.ptr.fields, prior.m);
    } else {
      sub.SetError(InvalidLayout);
    }
    v := Sub(m);
  }

  // ---- Fields ------------------------------------------------------------

  /** decode_static_field */
  method ReadField(s: IStream, f: Field, wireType: nat, slot: Slot) returns (ok: bool, slot': Slot)
    requires s.Valid()
    modifies s
    ensures Ran(s, ok) && Agrees(s, ok, slot', DecodeStatic(f, wireType, old(s.Rest()), slot))
    decreases s.bytesLeft, 3
  {
    slot' := slot;
    var v: Value;
    match f.h
    case Required | Optional =>
      if !slot.Single? { s.SetError(InvalidLayout); return false, slot; }
      ok, v := ReadValue(s, f, slot.v);
      slot' := Single(slot.has || (f.h.Optional? && f.sizeOffset != 0), v);
    case Repeated =>
      if !slot.Array? { s.SetError(InvalidLayout); return false, slot; }
      if wireType == WT_STRING && Packable(f.l) {
        ok, slot' := ReadPacked(s, f, slot.items, slot.count);
      } else {
        if slot.count >= f.arraySize { s.SetError(ArrayOverflow); return false, slot; }
        if slot.count >= |slot.items| { s.SetError(InvalidLayout); return false, slot; }
        ok, v := ReadValue(s, f, slot.items[slot.count]);
        slot' := Array(slot.count + 1, slot.items[slot.count := v]);
      }
    case Oneof =>
      if !slot.Union? { s.SetError(InvalidLayout); return false, slot; }
      // a submessage is cleared and set to its defaults first
      ok, v := ReadValue(s, f, if f.l.Submessage? then DefaultValue(f, ZeroValue(f)) else slot.v);
      slot' := Union(f.tag, v);
  }

  ghost function PackedResult(f: Field, bs: bytes, items: seq<Value>, count: nat): Parsed<Slot> {
    match Payload(bs)
    case Fail => Fail
    case Done(body, rest) =>
      match DecodePacked(f, body, items, count)
      case None => Fail
      case Some(slot) => Done(slot, rest)
  }

  /** The packed-array case: entries until the substream or the array is full. */
  method ReadPacked(s: IStream, f: Field, items: seq<Value>, count: nat) returns (ok: bool, slot: Slot)
    requires s.Valid() && Packable(f.l)
    modifies s
    ensures Ran(s, ok) && Agrees(s, ok, slot, PackedResult(f, old(s.Rest()), items, count))
    decreases s.bytesLeft, 2
  {
    slot := Array(count, items);
    var sub: IStream;
    ok, sub := MakeSubstream(s);
    if !ok { return; }
    ghost var body, end := sub.Rest(), sub.state + sub.bytesLeft;
    var status, n: nat, got := true, count, items;
    while status && sub.bytesLeft > 0 && n < f.arraySize && n < |got|
      invariant sub.Valid() && sub.state + sub.bytesLeft <= end && (status ==> sub.state + sub.bytesLeft == end)
      invariant |got| == |items|
      invariant if status then DecodePacked(f, body, items, count) == DecodePacked(f, sub.Rest(), got, n)
                else DecodePacked(f, body, items, count).None?
      invariant sub.bytesLeft < old(s.bytesLeft)
      modifies sub
      decreases sub.bytesLeft, status
    {
      var v: Value;
      status, v := ReadValue(sub, f, got[n]);
      if status { got, n := got[n := v], n + 1; }
    }
    if sub.bytesLeft != 0 {
      s.SetError(ArrayOverflow);
      return false, slot;
    }
    ok := CloseSubstream(s, sub);
    return status, Array(n, got);
  }

  // ---- Messages ----------------------------------------------------------

  /** decode_field, with the fixed-count bookkeeping in front of it. */
  method ReceiveField(s: IStream, fields: seq<Field>, k: nat, wireType: nat, ghost st: LoopState,
                      m: Message, fixed: Option<nat>, fixedSize: nat)
      returns (ok: bool, m': Message, fixed': Option<nat>, fixedSize': nat)
    requires s.Valid() && k < |fields| && StateOk(fields, st)
    requires st.msg == m && st.fixed == fixed && st.fixedSize == fixedSize
    modifies s
    ensures Ran(s, ok)
    ensures match FoundField(fields, k, wireType, old(s.Rest()), st)
      case Next(st', rest) =>
        ok && s.Rest() == rest && m' == st'.msg && fixed' == st'.fixed && fixedSize' == st'.fixedSize
      case _ => !ok
    decreases s.bytesLeft, 4
  {
    m', fixed', fixedSize' := m, fixed, fixedSize;
    var f, i := fields[k], SlotIndex(fields, k);
    if i >= |m| {
      s.SetError(InvalidLayout);
      return false, m', fixed', fixedSize';
    }
    if FixedCount(f) && fixed != Some(k) {
      if fixed.Some? && fixedSize != fields[fixed.value].arraySize {
        s.SetError(WrongFixedCount);
        return false, m', fixed', fixedSize';
      }
      fixed', fixedSize' := Some(k), 0;
    }
    var slot := m[i];
    if FixedCount(f) && slot.Array? { slot := slot.(count := fixedSize'); }  // pSize = &fixed_count_size
    var slot': Slot;
    ok, slot' := ReadField(s, f, wireType, slot);
    if !ok { return; }
    if FixedCount(f) {
      fixedSize' := slot'.count;
      slot' := slot'.(count := m[i].count);
    }
    m' := m[i := slot'];
  }

  /** Only indices of fields in the table are ever marked. */
  ghost predicate SeenInTable(fields: seq<Field>, seen: set<nat>) {
    forall i :: i in seen ==> i < Min(RequiredIndex(fields, |fields|), PB_MAX_REQUIRED_FIELDS)
  }

  lemma {:induction false} SeenStays(fields: seq<Field>, k: nat, seen: set<nat>)
    requires k < |fields| && SeenInTable(fields, seen)
    ensures fields[k].h.Required? && RequiredIndex(fields, k) < PB_MAX_REQUIRED_FIELDS ==>
      SeenInTable(fields, seen + {RequiredIndex(fields, k)})
  {
    if fields[k].h.Required? { PbOrder.RequiredIndexMono(fields, k, |fields|); }
  }

  /** The local variables of pb_decode_noinit stand for a loop state. */
  ghost predicate Stands(fields: seq<Field>, iter: PbIterator.FieldIter, words: array<nat>, st: LoopState,
                         m: Message, fixed: Option<nat>, fixedSize: nat)
    reads iter, words
  {
    && StateOk(fields, st) && iter.Valid() && iter.fields == fields && st.pos == iter.pos
    && st.msg == m && st.fixed == fixed && st.fixedSize == fixedSize
    && Holds(words, st.seen) && SeenInTable(fields, st.seen)
  }

  datatype Outcome = Failed | Ended | Going

  /** One round of the loop in pb_decode_noinit. */
  method DecodeOne(s: IStream, fields: seq<Field>, iter: PbIterator.FieldIter, words: array<nat>, ghost st: LoopState,
                   m: Message, fixed: Option<nat>, fixedSize: nat)
      returns (outcome: Outcome, m': Message, fixed': Option<nat>, fixedSize': nat, ghost st': LoopState)
    requires s.Valid() && s.bytesLeft > 0 && Stands(fields, iter, words, st, m, fixed, fixedSize)
    modifies s, iter, words
    ensures Ran(s, !outcome.Failed?)
    ensures match Step(fields, old(s.Rest()), st)
      case Abort => outcome.Failed?
      case Stop(end) => outcome.Ended? && s.Rest() == end && st' == st
      case Next(next, rest) => outcome.Going? && s.Rest() == rest && st' == next
    ensures !outcome.Failed? ==> Stands(fields, iter, words, st', m', fixed', fixedSize')
    decreases s.bytesLeft, 0
  {
    m', fixed', fixedSize', st' := m, fixed, fixedSize, st;
    var ok, wireType, tag, eof := ReadTag(s);
    if !ok { return if eof then Ended else Failed, m, fixed, fixedSize, st; }
    var found := iter.Find(tag);
    if !found {
      ok := DropField(s, wireType);
      return if ok then Going else Failed, m, fixed, fixedSize, st;
    }
    if fields == [] {
      s.SetError(InvalidDataSize);  // the terminator reads as a required varint of no size
      return Failed, m, fixed, fixedSize, st;
    }
    var k := iter.pos;
    ghost var rest := s.Rest();
    if fields[k].h.Required? && iter.requiredFieldIndex < PB_MAX_REQUIRED_FIELDS {
      MarkSeen(words, iter.requiredFieldIndex, st.seen);
    }
    ok, m', fixed', fixedSize' := ReceiveField(s, fields, k, wireType, st, m, fixed, fixedSize);
    if !ok { return Failed, m', fixed', fixedSize', st; }
    SeenStays(fields, k, st.seen);
    st' := FoundField(fields, k, wireType, rest, st).st;
    return Going, m', fixed', fixedSize', st';
  }

  lemma {:induction false} NoinitResult(fields: seq<Field>, input: bytes, m: Message, st: LoopState, rest: bytes)
    requires StateOk(fields, st) && Run(fields, input, Start(m)) == Done(st, rest)
    ensures DecodeNoinit(fields, input, m)
      == if FixedDone(fields, st) && RequiredSeen(fields, st.seen) then Done(st.msg, rest) else Fail
  {}

  /** pb_decode_noinit */
  method DecodeInto(s: IStream, fields: seq<Field>, m: Message) returns (ok: bool, out: Message)
    requires s.Valid()
    modifies s
    ensures Ran(s, ok) && Agrees(s, ok, out, DecodeNoinit(fields, old(s.Rest()), m))
    decreases s.bytesLeft, 5
  {
    out := m;
    var fieldsSeen := new nat[2] (_ => 0);
    var fixed: Option<nat>, fixedSize: nat := None, 0;
    var iter := new PbIterator.FieldIter(fields, 0);
    ghost var input, st := s.Rest(), Start(m);
    forall i: nat ensures !Bit(0, i) { BitZero(i); }
    while s.bytesLeft > 0
      invariant Ran(s, true) && Stands(fields, iter, fieldsSeen, st, out, fixed, fixedSize)
      invariant fresh(iter) && fresh(fieldsSeen)
      invariant Run(fields, input, Start(m)) == Run(fields, s.Rest(), st)
      decreases s.bytesLeft
    {
      var outcome;
      outcome, out, fixed, fixedSize, st := DecodeOne(s, fields, iter, fieldsSeen, st, out, fixed, fixedSize);
      if outcome.Failed? { return false, out; }
      if outcome.Ended? { break; }
    }
    NoinitResult(fields, input, m, st, s.Rest());
    ok := CheckComplete(s, fields, iter, fieldsSeen, st, out, fixed, fixedSize);
  }

  /** The checks after the loop: the last fixed-count array, then the required fields. */
  method CheckComplete(s: IStream, fields: seq<Field>, iter: PbIterator.FieldIter, words: array<nat>,
                       ghost st: LoopState, m: Message, fixed: Option<nat>, fixedSize: nat) returns (ok: bool)
    requires Stands(fields, iter, words, st, m, fixed, fixedSize)
    modifies s`err, iter
    ensures ok <==> FixedDone(fields, st) && RequiredSeen(fields, st.seen)
  {
    if fixed.Some? && fixedSize != fields[fixed.value].arraySize {
      s.SetError(WrongFixedCount);
      return false;
    }
    var count := CountRequired(iter);
    count := Min(count, PB_MAX_REQUIRED_FIELDS);
    ok := CheckSeen(words, count, st.seen);
    if !ok { s.SetError(MissingRequired); }
  }

  lemma DefaultsStep(fields: seq<Field>, prior: Message, m: Message, k: nat)
    requires k < |fields|
    ensures m + DefaultsFrom(fields, prior, k)
      == (m + [if InUnion(fields, k) then Shared else DefaultSlot(fields[k], SlotAt(prior, k))])
         + DefaultsFrom(fields, prior, k + 1)
  {}

  /** pb_message_set_to_defaults; the later members of a union have no storage of their own. */
  method SetToDefaults(fields: seq<Field>, prior: Message) returns (m: Message)
    ensures m == SetDefaults(fields, prior)
    ensures WellFormed(fields) ==> AllDefaulted(fields, m)
    decreases fields
  {
    m := [];
    var iter := new PbIterator.FieldIter(fields, 0);
    var more := iter.Begin();
    assert [] + SetDefaults(fields, prior) == SetDefaults(fields, prior);
    while more
      invariant iter.Valid() && iter.fields == fields && (more ==> iter.pos < |fields|)
      invariant SetDefaults(fields, prior) == m + DefaultsFrom(fields, prior, if more then iter.pos else |fields|)
      decreases if more then |fields| - iter.pos else 0
    {
      var k := iter.pos;
      DefaultsStep(fields, prior, m, k);
      if InUnion(fields, k) {
        m := m + [Shared];
      } else {
        var slot := SetToDefault(fields[k], SlotAt(prior, k));
        m := m + [slot];
      }
      more := iter.Next();
    }
    assert m + [] == m;
    if WellFormed(fields) { SetDefaultsDefaulted(fields, prior); }
  }

  /** pb_field_set_to_default */
  method SetToDefault(f: Field, prior: Slot) returns (slot: Slot)
    ensures slot == DefaultSlot(f, prior)
    ensures WellFormedField(f) ==> Defaulted(f, slot)
    decreases f
  {
    if WellFormedField(f) { DefaultSlotDefaulted(f, prior); }
    match f.h
    case Repeated =>
      return Array(0, if prior.Array? && |prior.items| == f.arraySize then prior.items else ZeroSlot(f).items);
    case Oneof => return Union(0, if prior.Union? then prior.v else ZeroValue(f));
    case _ =>
      var memory := if prior.Single? then prior.v else ZeroValue(f);
      if f.l.Submessage? {
        var sub: Message := [];
        if f.ptr.SubFields? { sub := SetToDefaults(f.ptr.fields, if memory.Sub? then memory.m else []); }
        return Single(false, Sub(sub));
      } else if f.ptr.Default? {
        return Single(false, f.ptr.value);
      }
      return Single(false, ZeroValue(f));
  }

  /** pb_decode */
  method Decode(s: IStream, fields: seq<Field>, m: Message) returns (ok: bool, out: Message)
    requires s.Valid()
    modifies s
    ensures Ran(s, ok) && Agrees(s, ok, out, DecodeMessage(fields, old(s.Rest()), m))
    decreases s.bytesLeft, 6
  {
    var blank := SetToDefaults(fields, m);
    ok, out := DecodeInto(s, fields, blank);
  }
}
