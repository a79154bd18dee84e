/** What nanopb writes for a struct: the byte string of each value, field and
    message, or None where the encoder reports an error. */
module PbEncodeSpec {
  import opened Basics
  import opened PbVarint
  import opened PbTypes

  function Both(a: Option<bytes>, b: Option<bytes>): Option<bytes> {
    if a.Some? && b.Some? then Some(a.value + b.value) else None
  }

  function EncodeTag(wireType: nat, tag: nat): bytes {
    EncodeVarint(8 * tag + wireType)
  }

  /** A length prefix followed by that many bytes. */
  function Delimited(s: bytes): bytes {
    EncodeVarint(|s|) + s
  }

  predicate IntSize(n: nat) {
    n == 1 || n == 2 || n == 4 || n == 8
  }

  /** The function PB_ENCODERS selects for the field's type. A value that is not
      laid out as the descriptor says has no encoding. */
  function EncodeValue(f: Field, v: Value): Option<bytes>
    decreases f, 0
  {
    match f.l
    case Varint | UVarint =>
      if v.Int? && IntSize(f.dataSize) then Some(EncodeVarint(ToUnsigned(v.v, TWO_64))) else None
    case SVarint =>
      if v.Int? && IntSize(f.dataSize) then Some(EncodeVarint(ZigZag(v.v))) else None
    case Fixed32 =>
      if v.Int? then Some(LittleEndian(ToUnsigned(v.v, TWO_32), 4)) else None
    case Fixed64 =>
      if v.Int? then Some(LittleEndian(ToUnsigned(v.v, TWO_64), 8)) else None
    case Bytes =>
      if v.Blob? && v.size + 1 <= f.dataSize && v.size <= |v.buf|
      then Some(Delimited(v.buf[..v.size])) else None
    case String =>
      if v.Text? then Some(Delimited(v.buf[..StrLen(v.buf)])) else None
    case Submessage =>
      if v.Sub? && f.ptr.SubFields? then
        match EncodeMessage(f.ptr.fields, v.m)
        case None => None
        case Some(body) => Some(Delimited(body))
      else None
    case FixedLengthBytes =>
      if v.Inline? && |v.buf| == f.dataSize then Some(Delimited(v.buf)) else None
  }

  /** pb_check_proto3_default_value. For a fixed-count array the C code reads the
      array's own data as its count; such arrays must not occur where this is called. */
  predicate IsDefault(f: Field, slot: Slot)
    decreases f, 1
  {
    match f.h
    case Required => false
    case Repeated => slot.Array? && slot.count == 0
    case Oneof => slot.Union? && slot.which == 0
    case Optional => slot.Single? && (if f.sizeOffset != 0 then !slot.has else IsZero(f, slot.v))
  }

  predicate IsZero(f: Field, v: Value)
    decreases f, 0
  {
    match f.l
    case Bytes => v.Blob? && v.size == 0
    case String => v.Text? && |v.buf| > 0 && v.buf[0] == 0
    case FixedLengthBytes => f.dataSize == 0
    case Submessage => f.ptr.SubFields? && v.Sub? && AllDefault(f.ptr.fields, v.m, 0)
    case _ => v == Int(0)
  }

  predicate AllDefault(fields: seq<Field>, m: Message, k: nat)
    requires k <= |fields|
    decreases fields, |fields| - k
  {
    k == |fields|
    || (IsDefault(fields[k], SlotAt(m, SlotIndex(fields, k))) && AllDefault(fields, m, k + 1))
  }

  /** Concatenated elements of an array, without tags. */
  function EncodeItems(f: Field, items: seq<Value>): Option<bytes>
    decreases f, 2, |items|
  {
    if items == [] then Some([])
    else Both(EncodeValue(f, items[0]), EncodeItems(f, items[1..]))
  }

  /** Elements of an array, each with its own tag. */
  function EncodeTagged(f: Field, items: seq<Value>): Option<bytes>
    decreases f, 2, |items|
  {
    if items == [] then Some([])
    else Both(TaggedValue(f, items[0]), EncodeTagged(f, items[1..]))
  }

  function TaggedValue(f: Field, v: Value): Option<bytes>
    decreases f, 1
  {
    Both(Some(EncodeTag(WireType(f.l), f.tag)), EncodeValue(f, v))
  }

  /** encode_array: scalar arrays are always packed. */
  function EncodeArray(f: Field, items: seq<Value>, count: nat): Option<bytes>
    decreases f, 3
  {
    if count == 0 then Some([])
    else if count > f.arraySize || count > |items| then None
    else if Packable(f.l) then
      match EncodeItems(f, items[..count])
      case None => None
      case Some(body) => Some(EncodeTag(WT_STRING, f.tag) + Delimited(body))
    else EncodeTagged(f, items[..count])
  }

  /** encode_basic_field */
  function EncodeField(f: Field, slot: Slot): Option<bytes>
    decreases f, 4
  {
    match f.h
    case Required => if slot.Single? then TaggedValue(f, slot.v) else None
    case Optional =>
      if !slot.Single? then None
      else if (if f.sizeOffset != 0 then slot.has else !IsDefault(f, slot)) then TaggedValue(f, slot.v)
      else Some([])
    case Repeated =>
      if !slot.Array? then None
      else EncodeArray(f, slot.items, if f.sizeOffset != 0 then slot.count else f.arraySize)
    case Oneof =>
      if !slot.Union? then None
      else if slot.which == f.tag then TaggedValue(f, slot.v)
      else Some([])
  }

  /** The fields from table position k on. */
  function EncodeFrom(fields: seq<Field>, m: Message, k: nat): Option<bytes>
    requires k <= |fields|
    decreases fields, |fields| - k
  {
    if k == |fields| then Some([])
    else Both(EncodeField(fields[k], SlotAt(m, SlotIndex(fields, k))), EncodeFrom(fields, m, k + 1))
  }

  /** pb_encode */
  function EncodeMessage(fields: seq<Field>, m: Message): Option<bytes>
    decreases fields, |fields| + 1
  {
    EncodeFrom(fields, m, 0)
  }
}
