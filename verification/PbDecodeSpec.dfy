/** What nanopb reads: the effect of each decoder on a value, a slot and a
    message, with Fail where the decoder reports an error. */
module PbDecodeSpec {
  import opened Basics
  import opened PbVarint
  import opened PbTypes

  // ---- Defaults ----------------------------------------------------------

  function Zeros(n: nat): (z: bytes)
    ensures |z| == n && forall i :: 0 <= i < n ==> z[i] == 0
  {
    seq(n, _ => 0)
  }

  function ZeroValue(f: Field): Value
    decreases f, 0
  {
    match f.l
    case Bytes => Blob(0, Zeros(Max(f.dataSize - 1, 0)))
    case String => Text(Zeros(f.dataSize))
    case FixedLengthBytes => Inline(Zeros(f.dataSize))
    case Submessage => Sub(if f.ptr.SubFields? then ZeroFrom(f.ptr.fields, 0) else [])
    case _ => Int(0)
  }

  function ZeroFrom(fields: seq<Field>, k: nat): Message
    requires k <= |fields|
    decreases fields, |fields| - k
  {
    if k == |fields| then []
    else [if InUnion(fields, k) then Shared else ZeroSlot(fields[k])] + ZeroFrom(fields, k + 1)
  }

  function ZeroSlot(f: Field): Slot
    decreases f, 1
  {
    match f.h
    case Required | Optional => Single(false, ZeroValue(f))
    case Repeated => Array(0, seq(f.arraySize, _ => ZeroValue(f)))
    case Oneof => Union(0, ZeroValue(f))
  }

  /** pb_field_set_to_default: array entries and union contents are left alone. */
  function DefaultSlot(f: Field, prior: Slot): Slot
    decreases f, 1
  {
    match f.h
    case Required | Optional => Single(false, DefaultValue(f, if prior.Single? then prior.v else ZeroValue(f)))
    case Repeated =>
      Array(0, if prior.Array? && |prior.items| == f.arraySize then prior.items else ZeroSlot(f).items)
    case Oneof => Union(0, if prior.Union? then prior.v else ZeroValue(f))
  }

  function DefaultValue(f: Field, prior: Value): Value
    decreases f, 0
  {
    if f.l.Submessage? then
      Sub(if f.ptr.SubFields? then DefaultsFrom(f.ptr.fields, if prior.Sub? then prior.m else [], 0) else [])
    else if f.ptr.Default? then f.ptr.value
    else ZeroValue(f)
  }

  function DefaultsFrom(fields: seq<Field>, prior: Message, k: nat): (m: Message)
    requires k <= |fields|
    ensures |m| == |fields| - k
    decreases fields, |fields| - k
  {
    if k == |fields| then []
    else [if InUnion(fields, k) then Shared else DefaultSlot(fields[k], SlotAt(prior, k))]
         + DefaultsFrom(fields, prior, k + 1)
  }

  /** pb_message_set_to_defaults */
  function SetDefaults(fields: seq<Field>, prior: Message): (m: Message)
    ensures |m| == |fields|
  {
    DefaultsFrom(fields, prior, 0)
  }

  // ---- Primitive readers -------------------------------------------------

  function Read(bs: bytes, n: nat): Parsed<bytes> {
    if |bs| < n then Fail else Done(bs[..n], bs[n..])
  }

  function SkipVarint(bs: bytes): Parsed<()> {
    match VarintLength(bs)
    case None => Fail
    case Some(n) => Done((), bs[n..])
  }

  function SkipBytes(bs: bytes, n: nat): Parsed<()> {
    if |bs| < n then Fail else Done((), bs[n..])
  }

  /** A 32-bit length and that many bytes: pb_make_string_substream followed by
      pb_close_string_substream, or pb_skip_string. */
  function Payload(bs: bytes): (r: Parsed<bytes>)
    ensures r.Done? ==> |r.value| + |r.rest| < |bs|
  {
    match DecodeVarint32(bs)
    case Fail => Fail
    case Done(n, rest) => Read(rest, n)
  }

  /** pb_skip_field */
  function SkipField(wt: nat, bs: bytes): (r: Parsed<()>)
    ensures r.Done? ==> |r.rest| < |bs|
  {
    if wt == WT_VARINT then SkipVarint(bs)
    else if wt == WT_64BIT then SkipBytes(bs, 8)
    else if wt == WT_STRING then
      match Payload(bs)
      case Fail => Fail
      case Done(_, rest) => Done((), rest)
    else if wt == WT_32BIT then SkipBytes(bs, 4)
    else Fail
  }

  // ---- Values ------------------------------------------------------------

  /** Number of values of an integer member of n bytes; 0 for a size the decoder rejects. */
  function Modulus(n: nat): nat {
    if n == 1 then 0x100 else if n == 2 then 0x1_0000 else if n == 4 then TWO_32
    else if n == 8 then TWO_64 else 0
  }

  /** Stores a signed value in n bytes, failing if it does not fit. */
  function ClampSigned(n: nat, v: int): Option<Value> {
    if Modulus(n) != 0 && ToSigned(v % Modulus(n), Modulus(n)) == v then Some(Int(v)) else None
  }

  function ClampUnsigned(n: nat, u: nat): Option<Value> {
    if Modulus(n) != 0 && u < Modulus(n) then Some(Int(u)) else None
  }

  function Stored(v: Option<Value>, rest: bytes): Parsed<Value> {
    if v.Some? then Done(v.value, rest) else Fail
  }

  /** What stays of an old buffer behind the first n bytes written to it. */
  function Leftover(prior: bytes, size: nat, n: nat): (r: bytes)
    requires n <= size
    ensures |r| == size - n
  {
    if |prior| == size then prior[n..] else Zeros(size - n)
  }

  /** The function PB_DECODERS selects for the field's type. It never looks at the wire type. */
  function DecodeValue(f: Field, bs: bytes, prior: Value): (r: Parsed<Value>)
    ensures r.Done? ==> |r.rest| < |bs|
    decreases |bs|, 0
  {
    match f.l
    case Varint =>
      (match DecodeVarint(bs)
       case Fail => Fail
       case Done(u, rest) =>
         Stored(ClampSigned(f.dataSize, ToSigned(u, if f.dataSize == 8 then TWO_64 else TWO_32)), rest))
    case UVarint =>
      (match DecodeVarint(bs)
       case Fail => Fail
       case Done(u, rest) => Stored(ClampUnsigned(f.dataSize, u), rest))
    case SVarint =>
      (match DecodeVarint(bs)
       case Fail => Fail
       case Done(u, rest) => Stored(ClampSigned(f.dataSize, UnZigZag(u)), rest))
    case Fixed32 =>
      (match Read(bs, 4)
       case Fail => Fail
       case Done(b, rest) => Done(Int(FromLittleEndian(b)), rest))
    case Fixed64 =>
      (match Read(bs, 8)
       case Fail => Fail
       case Done(b, rest) => Done(Int(FromLittleEndian(b)), rest))
    case Bytes =>
      (match DecodeVarint32(bs)
       case Fail => Fail
       case Done(size, rest) =>
         if size > PB_SIZE_MAX || size + 1 > f.dataSize then Fail else
         match Read(rest, size)
         case Fail => Fail
         case Done(b, rest') =>
           Done(Blob(size, b + Leftover(if prior.Blob? then prior.buf else [], f.dataSize - 1, size)), rest'))
    case String =>
      (match DecodeVarint32(bs)
       case Fail => Fail
       case Done(size, rest) =>
         if size + 1 > f.dataSize then Fail else
         match Read(rest, size)
         case Fail => Fail
         case Done(b, rest') =>
           Done(Text(b + [0] + Leftover(if prior.Text? then prior.buf else [], f.dataSize, size + 1)), rest'))
    case Submessage =>
      (match Payload(bs)
       case Fail => Fail
       case Done(body, rest) =>
         if !f.ptr.SubFields? then Fail else
         var r := if f.h.Repeated? then DecodeMessage(f.ptr.fields, body, if prior.Sub? then prior.m else [])
                  else if prior.Sub? then DecodeNoinit(f.ptr.fields, body, prior.m)
                  else Fail;
         match r
         case Fail => Fail
         case Done(m, _) => Done(Sub(m), rest))
    case FixedLengthBytes =>
      (match DecodeVarint32(bs)
       case Fail => Fail
       case Done(size, rest) =>
         if size > PB_SIZE_MAX then Fail
         else if size == 0 then Done(Inline(Zeros(f.dataSize)), rest)
         else if size != f.dataSize then Fail
         else match Read(rest, size)
           case Fail => Fail
           case Done(b, rest') => Done(Inline(b), rest'))
  }

  /** The packed-array loop over a substream. */
  function DecodePacked(f: Field, body: bytes, items: seq<Value>, count: nat): (r: Option<Slot>)
    ensures r.Some? ==> r.value.Array? && |r.value.items| == |items|
    decreases |body|, 1
  {
    if body == [] then Some(Array(count, items))
    else if count >= f.arraySize || count >= |items| then None
    else match DecodeValue(f, body, items[count])
      case Fail => None
      case Done(v, rest) => DecodePacked(f, rest, items[count := v], count + 1)
  }

  /** decode_static_field. For a fixed-count array, slot.count holds the decoder's own counter. */
  function DecodeStatic(f: Field, wt: nat, bs: bytes, slot: Slot): (r: Parsed<Slot>)
    ensures r.Done? ==> |r.rest| < |bs|
    ensures r.Done? ==> (f.h.Repeated? <==> slot.Array?) && (slot.Array? ==> r.value.Array?)
    ensures r.Done? ==> (f.h.Oneof? <==> slot.Union?)
    decreases |bs|, 2
  {
    match f.h
    case Required | Optional =>
      if !slot.Single? then Fail else
      (match DecodeValue(f, bs, slot.v)
       case Fail => Fail
       case Done(v, rest) => Done(Single(slot.has || (f.h.Optional? && f.sizeOffset != 0), v), rest))
    case Repeated =>
      if !slot.Array? then Fail
      else if wt == WT_STRING && Packable(f.l) then
        match Payload(bs)
        case Fail => Fail
        case Done(body, rest) =>
          match DecodePacked(f, body, slot.items, slot.count)
          case None => Fail
          case Some(slot') => Done(slot', rest)
      else if slot.count >= f.arraySize || slot.count >= |slot.items| then Fail
      else (match DecodeValue(f, bs, slot.items[slot.count])
        case Fail => Fail
        case Done(v, rest) => Done(Array(slot.count + 1, slot.items[slot.count := v]), rest))
    case Oneof =>
      if !slot.Union? then Fail else
      (match DecodeValue(f, bs, if f.l.Submessage? then DefaultValue(f, ZeroValue(f)) else slot.v)
       case Fail => Fail
       case Done(v, rest) => Done(Union(f.tag, v), rest))
  }

  // ---- Messages ----------------------------------------------------------

  /** The decoder's loop variables: iterator position, struct, required fields
      seen, and the fixed-count array being received with its counter. */
  datatype LoopState = LoopState(pos: nat, msg: Message, seen: set<nat>, fixed: Option<nat>, fixedSize: nat)

  datatype StepResult = Abort | Stop(end: bytes) | Next(st: LoopState, rest: bytes)

  predicate StateOk(fields: seq<Field>, st: LoopState) {
    && (fields != [] ==> st.pos < |fields|)
    && (st.fixed.Some? ==> st.fixed.value < |fields| && FixedCount(fields[st.fixed.value]))
  }

  /** First of the n positions from start on, cyclically, whose tag is the given one. */
  function FindFrom(fields: seq<Field>, start: nat, n: nat, tag: nat): (r: Option<nat>)
    requires start < |fields|
    ensures r.Some? ==> r.value < |fields| && fields[r.value].tag == tag
    decreases n
  {
    if n == 0 then None
    else if fields[start].tag == tag then Some(start)
    else FindFrom(fields, if start + 1 == |fields| then 0 else start + 1, n - 1, tag)
  }

  /** pb_field_iter_find */
  function Find(fields: seq<Field>, pos: nat, tag: nat): (r: Option<nat>)
    requires fields != [] ==> pos < |fields|
    ensures r.Some? ==> r.value < |fields| && fields[r.value].tag == tag
  {
    if fields == [] then None else FindFrom(fields, pos, |fields|, tag)
  }

  /** Whether the fixed-count array being received has all its entries. */
  predicate FixedDone(fields: seq<Field>, st: LoopState)
    requires StateOk(fields, st)
  {
    st.fixed.None? || st.fixedSize == fields[st.fixed.value].arraySize
  }

  /** One field whose table entry has been found. */
  function FoundField(fields: seq<Field>, k: nat, wt: nat, bs: bytes, st: LoopState): (r: StepResult)
    requires k < |fields| && StateOk(fields, st)
    ensures r.Next? ==> |r.rest| < |bs| && StateOk(fields, r.st) && |r.st.msg| == |st.msg|
    ensures !r.Stop?
    decreases |bs|, 3
  {
    var f, s := fields[k], SlotIndex(fields, k);
    var switch := FixedCount(f) && st.fixed != Some(k);
    if s >= |st.msg| || (switch && !FixedDone(fields, st)) then Abort else
    var counter := if switch then 0 else st.fixedSize;
    var slot := st.msg[s];
    var slotIn := if FixedCount(f) && slot.Array? then slot.(count := counter) else slot;
    var seen := if f.h.Required? && RequiredIndex(fields, k) < PB_MAX_REQUIRED_FIELDS
                then st.seen + {RequiredIndex(fields, k)} else st.seen;
    match DecodeStatic(f, wt, bs, slotIn)
    case Fail => Abort
    case Done(slot', rest) =>
      if FixedCount(f)
      then Next(LoopState(k, st.msg[s := slot'.(count := slot.count)], seen, Some(k), slot'.count), rest)
      else Next(LoopState(k, st.msg[s := slot'], seen, st.fixed, st.fixedSize), rest)
  }

  /** One round of the loop in pb_decode_noinit. */
  function Step(fields: seq<Field>, bs: bytes, st: LoopState): (r: StepResult)
    requires bs != [] && StateOk(fields, st)
    ensures r.Next? ==> |r.rest| < |bs| && StateOk(fields, r.st) && |r.st.msg| == |st.msg|
    decreases |bs|, 0
  {
    match DecodeVarint32(bs)
    case Fail => Abort
    case Done(key, rest) =>
      if key == 0 then Stop(rest)  // 0-terminated message
      else if fields == [] && key / 8 == 0 then Abort  // matches the table's terminator
      else match Find(fields, st.pos, key / 8)
        case Some(k) => FoundField(fields, k, key % 8, rest, st)
        case None =>
          match SkipField(key % 8, rest)
          case Fail => Abort
          case Done(_, rest') => Next(st, rest')
  }

  /** The loop: ends at the end of the stream or at a zero tag. */
  function Run(fields: seq<Field>, bs: bytes, st: LoopState): (r: Parsed<LoopState>)
    requires StateOk(fields, st)
    ensures r.Done? ==> StateOk(fields, r.value) && |r.value.msg| == |st.msg|
    decreases |bs|, 1
  {
    if bs == [] then Done(st, []) else
    match Step(fields, bs, st)
    case Abort => Fail
    case Stop(end) => Done(st, end)
    case Next(st', rest) => Run(fields, rest, st')
  }

  function Start(m: Message): LoopState {
    LoopState(0, m, {}, None, 0)
  }

  predicate RequiredSeen(fields: seq<Field>, seen: set<nat>) {
    forall i: nat :: i < Min(RequiredIndex(fields, |fields|), PB_MAX_REQUIRED_FIELDS) ==> i in seen
  }

  /** pb_decode_noinit */
  function DecodeNoinit(fields: seq<Field>, bs: bytes, m: Message): (r: Parsed<Message>)
    ensures r.Done? ==> |r.value| == |m|
    decreases |bs|, 2
  {
    match Run(fields, bs, Start(m))
    case Fail => Fail
    case Done(st, rest) =>
      if FixedDone(fields, st) && RequiredSeen(fields, st.seen) then Done(st.msg, rest) else Fail
  }

  /** pb_decode */
  function DecodeMessage(fields: seq<Field>, bs: bytes, m: Message): (r: Parsed<Message>)
    decreases |bs|, 3
  {
    DecodeNoinit(fields, bs, SetDefaults(fields, m))
  }
}
