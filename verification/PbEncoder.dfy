/** pb_encode.c: the encoder. Each writer is proved to produce the bytes of the
    specification, on a counting stream as on a buffer. */
module PbEncoder {
  import opened Basics
  import opened PbVarint
  import opened PbTypes
  import opened PbEncodeSpec
  import opened PbValid
  import opened PbStream
  import opened PbIterator

  // ---- Structs the encoder may be given ----------------------------------

  /** The struct holds values of the descriptor's C types. A member whose emptiness
      is tested must not hold a fixed-count array, and sizes are size_t. */
  predicate ShapedValue(f: Field, v: Value)
    decreases f, 0
  {
    match f.l
    case Varint | UVarint | SVarint | Fixed32 | Fixed64 => v.Int?
    case Bytes => v.Blob? && |v.buf| + 1 == f.dataSize
    case String => v.Text? && |v.buf| == f.dataSize
    case FixedLengthBytes => v.Inline? && |v.buf| == f.dataSize
    case Submessage =>
      && v.Sub?
      && (f.ptr.SubFields? ==>
           && Shaped(f.ptr.fields, v.m)
           && (EncodeMessage(f.ptr.fields, v.m).Some? ==> |EncodeMessage(f.ptr.fields, v.m).value| < TWO_64))
      && (HasLess(f) ==> f.ptr.SubFields? && forall g | g in f.ptr.fields :: !FixedCount(g))
  }

  predicate ShapedSlot(f: Field, slot: Slot)
    decreases f, 1
  {
    match f.h
    case Required => slot.Single? && ShapedValue(f, slot.v)
    case Optional => slot.Single? && (f.sizeOffset == 0 || slot.has ==> ShapedValue(f, slot.v))
    case Repeated =>
      && slot.Array? && |slot.items| == f.arraySize
      && forall i :: 0 <= i < f.arraySize && i < Entries(f, slot) ==> ShapedValue(f, slot.items[i])
    case Oneof => slot.Union? && (slot.which == f.tag ==> ShapedValue(f, slot.v))
  }

  predicate Shaped(fields: seq<Field>, m: Message)
    decreases fields, 2
  {
    && |m| == |fields|
    && forall k {:trigger ShapedSlot(fields[k], m[SlotIndex(fields, k)])} :: 0 <= k < |fields| ==>
         ShapedSlot(fields[k], m[SlotIndex(fields, k)])
  }

  // ---- Facts about the specification -------------------------------------

  lemma {:induction false} ItemsSize(f: Field, items: seq<Value>)
    requires Packable(f.l) && forall i :: 0 <= i < |items| ==> ShapedValue(f, items[i])
    ensures EncodeItems(f, items).Some? ==> |EncodeItems(f, items).value| <= 10 * |items|
    ensures f.l.Fixed32? || f.l.Fixed64? ==>
      && EncodeItems(f, items).Some?
      && |EncodeItems(f, items).value| == (if f.l.Fixed32? then 4 else 8) * |items|
    decreases |items|
  {
    if items != [] {
      ItemsSize(f, items[1..]);
      var v := items[0].v;
      VarintRoundTrip(ToUnsigned(v, TWO_64), []);
      VarintRoundTrip(ZigZag(v), []);
    }
  }

  // ---- Writers -----------------------------------------------------------

  /** Entries from (inclusive) to (exclusive) are all at their default. */
  ghost predicate DefaultIn(fields: seq<Field>, m: Message, from: nat, to: nat)
    requires to <= |fields| == |m|
  {
    forall k {:trigger IsDefault(fields[k], m[SlotIndex(fields, k)])} :: from <= k < to ==>
      IsDefault(fields[k], m[SlotIndex(fields, k)])
  }

  lemma {:induction false} AllDefaultIff(fields: seq<Field>, m: Message, from: nat)
    requires from <= |fields| == |m|
    ensures AllDefault(fields, m, from) <==> DefaultIn(fields, m, from, |fields|)
    decreases |fields| - from
  {
    if from < |fields| {
      AllDefaultIff(fields, m, from + 1);
      assert DefaultIn(fields, m, from, |fields|)
        <==> IsDefault(fields[from], m[SlotIndex(fields, from)]) && DefaultIn(fields, m, from + 1, |fields|);
    }
  }

  /** pb_check_proto3_default_value */
  method CheckDefault(f: Field, slot: Slot) returns (r: bool)
    requires ShapedSlot(f, slot) && !FixedCount(f)
    ensures r == IsDefault(f, slot)
    decreases f, 0
  {
    if f.h.Required? {
      return false;
    } else if f.h.Repeated? {
      return slot.count == 0;
    } else if f.h.Oneof? {
      return slot.which == 0;
    } else if f.sizeOffset != 0 {
      return !slot.has;
    }
    match f.l
    case Bytes => return slot.v.size == 0;
    case String => return |slot.v.buf| > 0 && slot.v.buf[0] == 0;
    case FixedLengthBytes => return f.dataSize == 0;
    case Submessage =>
      assert ShapedValue(f, slot.v);
      r := CheckAllDefault(f.ptr.fields, slot.v.m);
    case _ => return slot.v.v == 0;
  }

  method CheckAllDefault(fields: seq<Field>, m: Message) returns (r: bool)
    requires Shaped(fields, m) && forall g | g in fields :: !FixedCount(g)
    ensures r == AllDefault(fields, m, 0)
    decreases fields, 0
  {
    AllDefaultIff(fields, m, 0);
    var iter := new FieldIter(fields, 0);
    var more := iter.Begin();
    while more
      invariant iter.Valid() && iter.fields == fields && (more ==> iter.pos < |fields|)
      invariant DefaultIn(fields, m, 0, if more then iter.pos else |fields|)
      decreases if more then |fields| - iter.pos else 0
    {
      var k := iter.pos;
      assert fields[k] in fields && ShapedSlot(fields[k], m[SlotIndex(fields, k)]);
      var zero := CheckDefault(fields[k], m[SlotIndex(fields, k)]);
      if !zero { return false; }
      more := iter.Next();
    }
    return true;
  }

  /** The strnlen loop of pb_enc_string. */
  method StringLength(buf: bytes, max: nat) returns (size: nat)
    requires |buf| == max
    ensures size == StrLen(buf)
  {
    size := 0;
    while size < max && buf[size] != 0
      invariant size <= max && StrLen(buf) == size + StrLen(buf[size..])
    {
      assert buf[size..][1..] == buf[size + 1..];
      size := size + 1;
    }
  }

  /** The function in PB_ENCODERS for the field's type. */
  method WriteValue(s: OStream, f: Field, v: Value) returns (ok: bool)
    requires s.Valid() && ShapedValue(f, v)
    modifies s, s.buf
    ensures Wrote(s, ok, EncodeValue(f, v))
    decreases f, 0
  {
    match f.l
    case Varint | UVarint =>
      if !IntSize(f.dataSize) { s.SetError(InvalidDataSize); return false; }
      ok := WriteVarint(s, ToUnsigned(v.v, TWO_64));
    case SVarint =>
      if !IntSize(f.dataSize) { s.SetError(InvalidDataSize); return false; }
      ok := WriteSvarint(s, v.v);
    case Fixed32 => ok := WriteFixed32(s, ToUnsigned(v.v, TWO_32));
    case Fixed64 => ok := WriteFixed64(s, ToUnsigned(v.v, TWO_64));
    case Bytes =>
      if v.size + 1 > f.dataSize { s.SetError(BytesSizeExceeded); return false; }
      ok := WriteString(s, v.buf[..v.size]);
    case String =>
      var size := StringLength(v.buf, f.dataSize);
      ok := WriteString(s, v.buf[..size]);
    case Submessage =>
      if !f.ptr.SubFields? { s.SetError(InvalidDescriptor); return false; }
      ok := WriteSubmessage(s, f.ptr.fields, v.m);
    case FixedLengthBytes => ok := WriteString(s, v.buf);
  }

  /** pb_encode_submessage: counts the bytes first, then writes them through a
      substream that may hold exactly that many. */
  method WriteSubmessage(s: OStream, fields: seq<Field>, m: Message) returns (ok: bool)
    requires s.Valid() && Shaped(fields, m)
    requires EncodeMessage(fields, m).Some? ==> |EncodeMessage(fields, m).value| < TWO_64
    modifies s, s.buf
    ensures Wrote(s, ok, match EncodeMessage(fields, m) case None => None case Some(e) => Some(Delimited(e)))
    decreases fields, 2, 2
  {
    var counter := new OStream.Sizing();
    var counted := Encode(counter, fields, m);
    if !counted {
      s.err := counter.err;
      return false;
    }
    ok := WriteSized(s, fields, m, counter.bytesWritten);
  }

  /** The length prefix and then the body, which a counting stream only counts. */
  method WriteSized(s: OStream, fields: seq<Field>, m: Message, size: nat) returns (ok: bool)
    requires s.Valid() && Shaped(fields, m)
    requires EncodeMessage(fields, m).Some? && |EncodeMessage(fields, m).value| == size < TWO_64
    modifies s, s.buf
    ensures Wrote(s, ok, Some(Delimited(EncodeMessage(fields, m).value)))
    decreases fields, 2, 1
  {
    ghost var p, e := Now(s), EncodeMessage(fields, m);
    ok := WriteVarint(s, size);
    if !ok { return; }
    ghost var q := Now(s);
    if s.sizing {
      ok := Count(s, size);
    } else {
      ok := WriteNested(s, fields, m, size);
    }
    InSequence(s.sizing, s.maxSize, p, q, Now(s), ok, EncodeVarint(size), e);
  }

  /** The writing pass: the substream's bytes become the stream's, and the size
      that was counted cannot have changed. */
  method WriteNested(s: OStream, fields: seq<Field>, m: Message, size: nat) returns (ok: bool)
    requires s.Valid() && !s.sizing && Shaped(fields, m)
    requires EncodeMessage(fields, m).Some? && |EncodeMessage(fields, m).value| == size
    modifies s, s.buf
    ensures Wrote(s, ok, EncodeMessage(fields, m))
    decreases fields, 2, 0
  {
    if s.bytesWritten + size > s.maxSize {
      s.SetError(StreamFull);
      return false;
    }
    var substream := new OStream.FromBuffer(s.buf, s.state, size);
    var status := Encode(substream, fields, m);
    s.bytesWritten := s.bytesWritten + substream.bytesWritten;
    s.state := substream.state;
    s.err := if substream.bytesWritten != size then SizeChanged else substream.err;
    return status && substream.bytesWritten == size;
  }

  /** encode_array */
  method WriteArray(s: OStream, f: Field, items: seq<Value>, count: nat) returns (ok: bool)
    requires s.Valid() && |items| == f.arraySize
    requires forall i :: 0 <= i < |items| && i < count ==> ShapedValue(f, items[i])
    modifies s, s.buf
    ensures Wrote(s, ok, EncodeArray(f, items, count))
    decreases f, 2
  {
    if count == 0 { return true; }
    if count > f.arraySize {
      s.SetError(ArraySizeExceeded);
      return false;
    }
    if Packable(f.l) {
      ok := WritePacked(s, f, items[..count]);
    } else {
      ok := WriteTagged(s, f, items[..count]);
    }
  }

  /** Total size of packed entries, counted unless it follows from the type. */
  method PackedSize(f: Field, items: seq<Value>) returns (ok: bool, size: nat)
    requires Packable(f.l) && forall i :: 0 <= i < |items| ==> ShapedValue(f, items[i])
    ensures ok <==> EncodeItems(f, items).Some?
    ensures ok ==> size == |EncodeItems(f, items).value|
    decreases f, 1, 0
  {
    ItemsSize(f, items);
    if f.l.Fixed32? { return true, 4 * |items|; }
    if f.l.Fixed64? { return true, 8 * |items|; }
    var counter := new OStream.Sizing();
    var i := 0;
    while i < |items|
      invariant i <= |items| && counter.Valid() && counter.sizing && fresh(counter) && fresh(counter.buf)
      invariant EncodeItems(f, items).Some? <==> EncodeItems(f, items[i..]).Some?
      invariant EncodeItems(f, items).Some? ==>
        counter.bytesWritten + |EncodeItems(f, items[i..]).value| == |EncodeItems(f, items).value|
    {
      assert items[i..][1..] == items[i + 1..];
      ok := WriteValue(counter, f, items[i]);
      if !ok { return false, 0; }
      i := i + 1;
    }
    return true, counter.bytesWritten;
  }

  method WritePacked(s: OStream, f: Field, items: seq<Value>) returns (ok: bool)
    requires s.Valid() && Packable(f.l) && |items| <= PB_SIZE_MAX
    requires forall i :: 0 <= i < |items| ==> ShapedValue(f, items[i])
    modifies s, s.buf
    ensures Wrote(s, ok, Both(Some(EncodeTag(WT_STRING, f.tag)), DelimitedItems(f, items)))
    decreases f, 1, 2
  {
    ghost var p, tag := Now(s), EncodeTag(WT_STRING, f.tag);
    ok := WriteTag(s, WT_STRING, f.tag);
    if !ok {
      FailedFirst(s.sizing, s.maxSize, p, Now(s), Some(tag), DelimitedItems(f, items));
      return;
    }
    ghost var q := Now(s);
    ok := WriteDelimitedItems(s, f, items);
    InSequence(s.sizing, s.maxSize, p, q, Now(s), ok, tag, DelimitedItems(f, items));
  }

  ghost function DelimitedItems(f: Field, items: seq<Value>): Option<bytes> {
    match EncodeItems(f, items) case None => None case Some(e) => Some(Delimited(e))
  }

  method WriteDelimitedItems(s: OStream, f: Field, items: seq<Value>) returns (ok: bool)
    requires s.Valid() && Packable(f.l) && |items| <= PB_SIZE_MAX
    requires forall i :: 0 <= i < |items| ==> ShapedValue(f, items[i])
    modifies s, s.buf
    ensures Wrote(s, ok, DelimitedItems(f, items))
    decreases f, 1, 1
  {
    ItemsSize(f, items);
    var size: nat;
    ok, size := PackedSize(f, items);
    if !ok { return; }
    ghost var p, e := Now(s), EncodeItems(f, items);
    ok := WriteVarint(s, size);
    if !ok { return; }
    ghost var q := Now(s);
    if s.sizing {
      ok := Count(s, size);
    } else {
      ok := WriteItems(s, f, items);
    }
    InSequence(s.sizing, s.maxSize, p, q, Now(s), ok, EncodeVarint(size), e);
  }

  method WriteItems(s: OStream, f: Field, items: seq<Value>) returns (ok: bool)
    requires s.Valid() && Packable(f.l) && forall i :: 0 <= i < |items| ==> ShapedValue(f, items[i])
    modifies s, s.buf
    ensures Wrote(s, ok, EncodeItems(f, items))
    decreases f, 1, 0
  {
    var i := 0;
    ghost var p, done: bytes := Now(s), [];
    BothEmpty(EncodeItems(f, items));
    while i < |items|
      invariant i <= |items| && s.Valid() && Extends(s.sizing, s.maxSize, p, Now(s), true, Some(done))
      invariant EncodeItems(f, items) == Both(Some(done), EncodeItems(f, items[i..]))
    {
      assert items[i..][1..] == items[i + 1..];
      ghost var q := Now(s);
      ok := WriteValue(s, f, items[i]);
      Advance(s.sizing, s.maxSize, p, q, Now(s), ok, done, EncodeValue(f, items[i]), EncodeItems(f, items[i + 1..]));
      if !ok { return; }
      BothMoves(done, EncodeValue(f, items[i]), EncodeItems(f, items[i + 1..]));
      done := done + EncodeValue(f, items[i]).value;
      i := i + 1;
    }
    return true;
  }

  method WriteTagged(s: OStream, f: Field, items: seq<Value>) returns (ok: bool)
    requires s.Valid() && forall i :: 0 <= i < |items| ==> ShapedValue(f, items[i])
    modifies s, s.buf
    ensures Wrote(s, ok, EncodeTagged(f, items))
    decreases f, 1, 1
  {
    var i := 0;
    ghost var p, done: bytes := Now(s), [];
    BothEmpty(EncodeTagged(f, items));
    while i < |items|
      invariant i <= |items| && s.Valid() && Extends(s.sizing, s.maxSize, p, Now(s), true, Some(done))
      invariant EncodeTagged(f, items) == Both(Some(done), EncodeTagged(f, items[i..]))
    {
      assert items[i..][1..] == items[i + 1..];
      ghost var q := Now(s);
      ok := WriteTaggedValue(s, f, items[i]);
      Advance(s.sizing, s.maxSize, p, q, Now(s), ok, done, TaggedValue(f, items[i]), EncodeTagged(f, items[i + 1..]));
      if !ok { return; }
      BothMoves(done, TaggedValue(f, items[i]), EncodeTagged(f, items[i + 1..]));
      done := done + TaggedValue(f, items[i]).value;
      i := i + 1;
    }
    return true;
  }

  /** pb_encode_tag_for_field and the value. */
  method WriteTaggedValue(s: OStream, f: Field, v: Value) returns (ok: bool)
    requires s.Valid() && ShapedValue(f, v)
    modifies s, s.buf
    ensures Wrote(s, ok, TaggedValue(f, v))
    decreases f, 1, 0
  {
    ghost var p, tag := Now(s), EncodeTag(WireType(f.l), f.tag);
    ok := WriteTag(s, WireType(f.l), f.tag);
    if !ok {
      FailedFirst(s.sizing, s.maxSize, p, Now(s), Some(tag), EncodeValue(f, v));
      return;
    }
    ghost var q := Now(s);
    ok := WriteValue(s, f, v);
    InSequence(s.sizing, s.maxSize, p, q, Now(s), ok, tag, EncodeValue(f, v));
  }

  /** encode_basic_field */
  method WriteField(s: OStream, f: Field, slot: Slot) returns (ok: bool)
    requires s.Valid() && ShapedSlot(f, slot)
    modifies s, s.buf
    ensures Wrote(s, ok, EncodeField(f, slot))
    decreases f, 3
  {
    match f.h
    case Required => ok := WriteTaggedValue(s, f, slot.v);
    case Optional =>
      var present := slot.has;
      if f.sizeOffset == 0 {
        var zero := CheckDefault(f, slot);
        present := !zero;
      }
      if !present { return true; }
      ok := WriteTaggedValue(s, f, slot.v);
    case Repeated =>
      ok := WriteArray(s, f, slot.items, if f.sizeOffset != 0 then slot.count else f.arraySize);
    case Oneof =>
      if slot.which != f.tag { return true; }
      ok := WriteTaggedValue(s, f, slot.v);
  }

  ghost function Join(parts: seq<Option<bytes>>): Option<bytes> {
    if parts == [] then Some([]) else Both(parts[0], Join(parts[1..]))
  }

  ghost function FieldParts(fields: seq<Field>, m: Message): seq<Option<bytes>>
    requires |m| == |fields|
  {
    seq(|fields|, k requires 0 <= k < |fields| => EncodeField(fields[k], m[SlotIndex(fields, k)]))
  }

  lemma {:induction false} JoinParts(fields: seq<Field>, m: Message, k: nat)
    requires k <= |fields| == |m|
    ensures EncodeFrom(fields, m, k) == Join(FieldParts(fields, m)[k..])
    decreases |fields| - k
  {
    if k < |fields| {
      JoinParts(fields, m, k + 1);
      assert FieldParts(fields, m)[k..][1..] == FieldParts(fields, m)[k + 1..];
    }
  }

  lemma WholeParts(fields: seq<Field>, m: Message) returns (parts: seq<Option<bytes>>)
    requires |m| == |fields|
    ensures |parts| == |fields| && Join(parts) == EncodeMessage(fields, m)
    ensures forall k {:trigger parts[k]} :: 0 <= k < |fields| ==>
      parts[k] == EncodeField(fields[k], m[SlotIndex(fields, k)])
    ensures Join(parts) == Both(Some([]), Join(parts[0..]))
  {
    parts := FieldParts(fields, m);
    JoinParts(fields, m, 0);
    assert parts[0..] == parts;
    BothEmpty(Join(parts));
  }

  lemma JoinStep(done: bytes, parts: seq<Option<bytes>>, k: nat)
    requires k < |parts|
    ensures Join(parts[k..]) == Both(parts[k], Join(parts[k + 1..]))
    ensures parts[k].Some? ==>
      Both(Some(done), Join(parts[k..])) == Both(Some(done + parts[k].value), Join(parts[k + 1..]))
  {
    assert parts[k..][1..] == parts[k + 1..];
    if parts[k].Some? { BothMoves(done, parts[k], Join(parts[k + 1..])); }
  }

  /** The stream holds the parts before k, and what is still to come makes up whole. */
  ghost predicate PartWay(s: OStream, p: Moment, done: bytes, whole: Option<bytes>, parts: seq<Option<bytes>>, k: nat)
    requires k <= |parts|
    reads s, s.buf
  {
    && s.Valid() && Extends(s.sizing, s.maxSize, p, Now(s), true, Some(done))
    && whole == Both(Some(done), Join(parts[k..]))
  }

  /** One round of pb_encode's loop, after the fields before it put done in the stream. */
  method EncodeNext(s: OStream, f: Field, slot: Slot, ghost p: Moment, ghost done: bytes, ghost whole: Option<bytes>,
                    ghost parts: seq<Option<bytes>>, ghost k: nat)
      returns (ok: bool, ghost done': bytes)
    requires k < |parts| && parts[k] == EncodeField(f, slot)
    requires ShapedSlot(f, slot) && PartWay(s, p, done, whole, parts, k)
    modifies s, s.buf
    ensures ok ==> PartWay(s, p, done', whole, parts, k + 1)
    ensures !ok ==> s.Valid() && Extends(s.sizing, s.maxSize, p, Now(s), false, whole)
    decreases f, 4
  {
    ghost var q := Now(s);
    JoinStep(done, parts, k);
    ok := WriteField(s, f, slot);
    Advance(s.sizing, s.maxSize, p, q, Now(s), ok, done, parts[k], Join(parts[k + 1..]));
    done' := if parts[k].Some? then done + parts[k].value else [];
  }

  /** pb_encode */
  method Encode(s: OStream, fields: seq<Field>, m: Message) returns (ok: bool)
    requires s.Valid() && Shaped(fields, m)
    modifies s, s.buf
    ensures Wrote(s, ok, EncodeMessage(fields, m))
    decreases fields, 1
  {
    ghost var whole := EncodeMessage(fields, m);
    ghost var parts := WholeParts(fields, m);
    ghost var p, done: bytes, k := Now(s), [], 0;
    var iter := new FieldIter(fields, 0);
    var more := iter.Begin();
    while more
      invariant iter.Valid() && fresh(iter) && iter.fields == fields
      invariant k <= |fields| && if more then k < |fields| && iter.pos == k else k == |fields|
      invariant PartWay(s, p, done, whole, parts, k)
      decreases |fields| - k
    {
      assert ShapedSlot(fields[k], m[SlotIndex(fields, k)]);
      ok, done := EncodeNext(s, fields[iter.pos], m[SlotIndex(fields, iter.pos)], p, done, whole, parts, k);
      if !ok { return; }
      k := k + 1;
      more := iter.Next();
    }
    WholeDone(done, parts);
    return true;
  }

  lemma WholeDone(done: bytes, parts: seq<Option<bytes>>)
    ensures Both(Some(done), Join(parts[|parts|..])) == Some(done)
  {
    assert done + [] == done;
  }

  /** pb_get_encoded_size */
  method GetEncodedSize(fields: seq<Field>, m: Message) returns (ok: bool, size: nat)
    requires Shaped(fields, m)
    ensures ok <==> EncodeMessage(fields, m).Some?
    ensures ok ==> size == |EncodeMessage(fields, m).value|
  {
    var counter := new OStream.Sizing();
    ok := Encode(counter, fields, m);
    size := counter.bytesWritten;
  }

  /** pb_encode into the first n bytes of a buffer: succeeds exactly when the size
      that pb_get_encoded_size reports is at most n, and writes exactly that many bytes. */
  method EncodeIntoBuffer(buf: array<byte>, n: nat, fields: seq<Field>, m: Message) returns (ok: bool, written: nat)
    requires n <= buf.Length && Shaped(fields, m)
    modifies buf
    ensures var e := EncodeMessage(fields, m);
      && (ok <==> e.Some? && |e.value| <= n)
      && (ok ==> written == |e.value| && buf[..written] == e.value)
    ensures buf[n..] == old(buf[n..])
  {
    ghost var before := buf[..];
    var s := new OStream.FromBuffer(buf, 0, n);
    ok := Encode(s, fields, m);
    written := s.bytesWritten;
    assert Kept(Moment(0, 0, before), Now(s), n);
    assert forall i :: n <= i < buf.Length ==> buf[i] == Now(s).memory[i] == before[i];
  }
}
