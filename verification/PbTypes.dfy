/** nanopb field descriptors and the message structs they describe. A descriptor
    is the field table up to its terminator; a struct is one slot per table entry,
    and the members of a union share the slot of the first member. */
module PbTypes {
  import opened Basics

  // Default build: pb_size_t is eight bits wide.
  const PB_SIZE_MAX: nat := 255
  type PbSize = x: nat | x <= PB_SIZE_MAX
  type PbTag = x: nat | 0 < x <= PB_SIZE_MAX witness 1

  /** Required fields beyond this many are not tracked by the decoder. */
  const PB_MAX_REQUIRED_FIELDS: nat := 64

  datatype LType = Varint | UVarint | SVarint | Fixed32 | Fixed64
    | Bytes | String | Submessage | FixedLengthBytes

  datatype HType = Required | Optional | Repeated | Oneof

  datatype Ptr = Null | SubFields(fields: seq<Field>) | Default(value: Value)

  /** One entry of the table. sizeOffset == 0 means the struct has no has_/count member. */
  datatype Field = Field(tag: PbTag, h: HType, l: LType, dataOffset: PbSize, sizeOffset: int,
                         dataSize: PbSize, arraySize: PbSize, ptr: Ptr)

  datatype Value =
    | Int(v: int)                       // integer member of dataSize bytes
    | Blob(size: nat, buf: bytes)       // PB_BYTES_ARRAY_T
    | Text(buf: bytes)                  // char[dataSize]
    | Inline(buf: bytes)                // pb_byte_t[dataSize]
    | Sub(m: Message)

  datatype Slot =
    | Single(has: bool, v: Value)
    | Array(count: nat, items: seq<Value>)
    | Union(which: nat, v: Value)
    | Shared                            // a union member stored in an earlier slot

  type Message = seq<Slot>

  predicate Packable(l: LType) {
    l.Varint? || l.UVarint? || l.SVarint? || l.Fixed32? || l.Fixed64?
  }

  const WT_VARINT: nat := 0
  const WT_64BIT: nat := 1
  const WT_STRING: nat := 2
  const WT_32BIT: nat := 5

  /** pb_encode_tag_for_field's choice of wire type. */
  function WireType(l: LType): (w: nat)
    ensures w in {WT_VARINT, WT_64BIT, WT_STRING, WT_32BIT}
  {
    match l
    case Varint | UVarint | SVarint => WT_VARINT
    case Fixed32 => WT_32BIT
    case Fixed64 => WT_64BIT
    case Bytes | String | Submessage | FixedLengthBytes => WT_STRING
  }

  predicate FixedCount(f: Field) {
    f.h.Repeated? && f.sizeOffset == 0
  }

  /** Whether entry k continues the union of entry k - 1. */
  predicate InUnion(fields: seq<Field>, k: nat)
    requires k < |fields|
  {
    k > 0 && fields[k - 1].h.Oneof? && fields[k].h.Oneof? && fields[k].dataOffset == PB_SIZE_MAX
  }

  /** The slot that entry k is stored in. */
  function SlotIndex(fields: seq<Field>, k: nat): (s: nat)
    requires k < |fields|
    ensures s <= k
    ensures s < k ==> fields[k].h.Oneof? && fields[s].h.Oneof?
  {
    if InUnion(fields, k) then SlotIndex(fields, k - 1) else k
  }

  /** Number of required entries before position k. */
  function RequiredIndex(fields: seq<Field>, k: nat): (n: nat)
    requires k <= |fields|
    ensures n <= k
  {
    if k == 0 then 0
    else RequiredIndex(fields, k - 1) + (if fields[k - 1].h.Required? then 1 else 0)
  }

  function SlotAt(msg: Message, s: nat): Slot {
    if s < |msg| then msg[s] else Shared
  }

  /** strlen of a buffer, at most its size. */
  function StrLen(buf: bytes): (n: nat)
    ensures n <= |buf|
    ensures n < |buf| ==> buf[n] == 0
    ensures forall i :: 0 <= i < n ==> buf[i] != 0
  {
    if buf == [] || buf[0] == 0 then 0 else 1 + StrLen(buf[1..])
  }
}
