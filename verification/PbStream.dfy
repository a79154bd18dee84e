/** pb_ostream_t over a memory buffer, or without one to count bytes only, and
    the primitive writers of pb_encode.c. */
module PbStream {
  import opened Basics
  import opened PbVarint
  import opened PbEncodeSpec

  datatype Error = NoError | StreamFull | ArraySizeExceeded | InvalidDataSize
    | BytesSizeExceeded | InvalidDescriptor | SizeChanged

  class OStream {
    /** No callback: bytes are only counted. */
    const sizing: bool
    const buf: array<byte>
    const maxSize: nat
    var state: nat
    var bytesWritten: nat
    var err: Error

    /** The stream never leaves its part of the buffer, and "submsg size changed"
        is never reported. */
    ghost predicate Valid()
      reads this
    {
      && err != SizeChanged
      && (!sizing ==> bytesWritten <= maxSize && bytesWritten <= state && state - bytesWritten + maxSize <= buf.Length)
    }

    /** PB_OSTREAM_SIZING */
    constructor Sizing()
      ensures Valid() && sizing && bytesWritten == 0 && err == NoError && fresh(buf)
    {
      sizing := true;
      buf := new byte[0];
      maxSize, state, bytesWritten, err := 0, 0, 0, NoError;
    }

    /** pb_ostream_from_buffer, for the bytes of buf from offset on. */
    constructor FromBuffer(buf: array<byte>, offset: nat, maxSize: nat)
      requires offset + maxSize <= buf.Length
      ensures Valid() && !sizing && this.buf == buf && this.maxSize == maxSize
      ensures state == offset && bytesWritten == 0 && err == NoError
    {
      sizing := false;
      this.buf, this.maxSize := buf, maxSize;
      state, bytesWritten, err := offset, 0, NoError;
    }

    /** PB_SET_ERROR keeps the first error. */
    method SetError(e: Error)
      requires Valid() && e != SizeChanged
      modifies this`err
      ensures Valid() && err == if old(err) == NoError then e else old(err)
    {
      if err == NoError { err := e; }
    }
  }

  /** What a stream and its buffer hold at one moment. */
  datatype Moment = Moment(bytesWritten: nat, state: nat, memory: bytes)

  ghost function Now(s: OStream): Moment
    reads s, s.buf
  {
    Moment(s.bytesWritten, s.state, s.buf[..])
  }

  /** Only the rest of the stream's own part of the buffer may change. */
  ghost predicate Kept(p: Moment, q: Moment, maxSize: nat) {
    && q.state >= p.state && |q.memory| == |p.memory|
    && q.state - q.bytesWritten == p.state - p.bytesWritten
    && forall i :: 0 <= i < |p.memory| && (i < p.state || i >= p.state - p.bytesWritten + maxSize) ==>
         q.memory[i] == p.memory[i]
  }

  /** From p to q a writer for e ran with the given outcome: it succeeds exactly when
      e exists and fits, and then has put e behind what was there. */
  ghost predicate Extends(sizing: bool, maxSize: nat, p: Moment, q: Moment, ok: bool, e: Option<bytes>) {
    && q.bytesWritten >= p.bytesWritten
    && (!sizing ==> Kept(p, q, maxSize))
    && (ok <==> e.Some? && (sizing || p.bytesWritten + |e.value| <= maxSize))
    && (ok ==> q.bytesWritten == p.bytesWritten + |e.value|)
    && (ok && !sizing ==> q.state <= |q.memory| && q.memory[p.state..q.state] == e.value)
  }

  twostate predicate Wrote(s: OStream, ok: bool, new e: Option<bytes>)
    reads s, s.buf
  {
    s.Valid() && Extends(s.sizing, s.maxSize, old(Now(s)), Now(s), ok, e)
  }

  /** One writer after another. */
  lemma InSequence(sizing: bool, maxSize: nat, p: Moment, q: Moment, r: Moment,
                   ok: bool, a: bytes, b: Option<bytes>)
    requires Extends(sizing, maxSize, p, q, true, Some(a)) && Extends(sizing, maxSize, q, r, ok, b)
    requires !sizing ==> q.bytesWritten <= q.state && q.state - q.bytesWritten + maxSize <= |q.memory|
    ensures Extends(sizing, maxSize, p, r, ok, Both(Some(a), b))
  {}

  /** A writer that fails makes everything that starts with it fail. */
  lemma FailedFirst(sizing: bool, maxSize: nat, p: Moment, q: Moment, a: Option<bytes>, b: Option<bytes>)
    requires Extends(sizing, maxSize, p, q, false, a)
    ensures Extends(sizing, maxSize, p, q, false, Both(a, b))
  {}

  /** One round of a loop that has written done and goes on to write e and then rest. */
  lemma Advance(sizing: bool, maxSize: nat, p: Moment, q: Moment, r: Moment,
                ok: bool, done: bytes, e: Option<bytes>, rest: Option<bytes>)
    requires Extends(sizing, maxSize, p, q, true, Some(done)) && Extends(sizing, maxSize, q, r, ok, e)
    requires !sizing ==> q.bytesWritten <= q.state && q.state - q.bytesWritten + maxSize <= |q.memory|
    ensures ok ==> e.Some? && Extends(sizing, maxSize, p, r, true, Some(done + e.value))
    ensures !ok ==> Extends(sizing, maxSize, p, r, false, Both(Some(done), Both(e, rest)))
  {
    InSequence(sizing, maxSize, p, q, r, ok, done, e);
    if !ok {
      FailedFirst(sizing, maxSize, p, r, Both(Some(done), e), rest);
      BothAssoc(Some(done), e, rest);
    }
  }

  lemma BothAssoc(a: Option<bytes>, b: Option<bytes>, c: Option<bytes>)
    ensures Both(Both(a, b), c) == Both(a, Both(b, c))
  {
    if a.Some? && b.Some? && c.Some? {
      assert (a.value + b.value) + c.value == a.value + (b.value + c.value);
    }
  }

  lemma BothMoves(done: bytes, a: Option<bytes>, rest: Option<bytes>)
    requires a.Some?
    ensures Both(Some(done), Both(a, rest)) == Both(Some(done + a.value), rest)
  {
    BothAssoc(Some(done), a, rest);
  }

  lemma BothEmpty(e: Option<bytes>)
    ensures Both(Some([]), e) == e
  {
    if e.Some? { assert [] + e.value == e.value; }
  }

  /** pb_write with data. */
  method Write(s: OStream, data: bytes) returns (ok: bool)
    requires s.Valid()
    modifies s, s.buf
    ensures Wrote(s, ok, Some(data))
  {
    if !s.sizing {
      if s.bytesWritten + |data| > s.maxSize {
        s.SetError(StreamFull);
        return false;
      }
      BufWrite(s, data);
    }
    s.bytesWritten := s.bytesWritten + |data|;
    return true;
  }

  /** buf_write: advances state, then copies byte by byte. */
  method BufWrite(s: OStream, data: bytes)
    requires s.state + |data| <= s.buf.Length
    modifies s`state, s.buf
    ensures s.state == old(s.state) + |data|
    ensures s.buf[..] == old(s.buf[..s.state]) + data + old(s.buf[s.state + |data|..])
  {
    var dest := s.state;
    s.state := dest + |data|;
    var i := 0;
    while i < |data|
      invariant i <= |data|
      invariant s.buf[dest..dest + i] == data[..i]
      invariant s.buf[..dest] == old(s.buf[..dest]) && s.buf[dest + i..] == old(s.buf[dest + i..])
      modifies s.buf
    {
      s.buf[dest + i] := data[i];
      i := i + 1;
    }
  }

  /** pb_write without data: only a counting stream may be given none. */
  method Count(s: OStream, count: nat) returns (ok: bool)
    requires s.Valid() && s.sizing
    modifies s`bytesWritten
    ensures ok && s.bytesWritten == old(s.bytesWritten) + count
  {
    s.bytesWritten := s.bytesWritten + count;
    return true;
  }

  lemma {:induction false} VarintMoves(done: bytes, v: nat)
    ensures done + EncodeVarint(v)
      == if v < 128 then done + [v] else (done + [v % 128 + 128]) + EncodeVarint(v / 128)
  {}

  /** The loop of pb_encode_varint, which never fills more than its ten bytes. */
  method FillGroups(value: nat) returns (buffer: array<byte>, i: nat)
    requires 0x7F < value < TWO_64
    ensures i <= buffer.Length == 10 && fresh(buffer)
    ensures buffer[..i] == EncodeVarint(value)
  {
    VarintRoundTrip(value, []);
    buffer := new byte[10];
    var v := value;
    i := 0;
    while v != 0
      invariant i <= 10 && Filled(buffer[..i], v, EncodeVarint(value))
      decreases v
    {
      ghost var done := buffer[..i];
      OneMoreGroup(done, v, EncodeVarint(value));
      buffer[i] := v % 128 + 128;
      assert buffer[..i + 1] == done + [v % 128 + 128];
      v := v / 128;
      i := i + 1;
    }
    ghost var done := buffer[..i - 1];
    assert buffer[..i][..i - 1] == done;
    buffer[i - 1] := buffer[i - 1] - 128;  // unset the top bit of the last byte
    assert buffer[..i] == done + [buffer[i - 1]];
  }

  /** done and the groups of v make up the varint, or, past the last group, done is the
      varint but for the top bit of its last byte. */
  ghost predicate Filled(done: bytes, v: nat, whole: bytes) {
    if v != 0 then whole == done + EncodeVarint(v)
    else done != [] && Last(done) >= 128 && whole == done[..|done| - 1] + [Last(done) - 128]
  }

  function Last(s: bytes): byte
    requires s != []
  {
    s[|s| - 1]
  }

  /** One round of the loop, within the length of the varint. */
  lemma OneMoreGroup(done: bytes, v: nat, whole: bytes)
    requires v != 0 && Filled(done, v, whole)
    ensures Filled(done + [v % 128 + 128], v / 128, whole) && |done| < |whole|
  {
    VarintMoves(done, v);
    assert (done + [v % 128 + 128])[..|done|] == done;
  }

  /** pb_encode_varint */
  method WriteVarint(s: OStream, value: nat) returns (ok: bool)
    requires s.Valid() && value < TWO_64
    modifies s, s.buf
    ensures Wrote(s, ok, Some(EncodeVarint(value)))
  {
    if value <= 0x7F {
      ok := Write(s, [value]);
      return;
    }
    var buffer, i := FillGroups(value);
    ok := Write(s, buffer[..i]);
  }

  /** pb_encode_svarint */
  method WriteSvarint(s: OStream, value: int) returns (ok: bool)
    requires s.Valid()
    modifies s, s.buf
    ensures Wrote(s, ok, Some(EncodeVarint(ZigZag(value))))
  {
    ok := WriteVarint(s, ZigZag(value));
  }

  /** pb_encode_fixed32 */
  method WriteFixed32(s: OStream, v: nat) returns (ok: bool)
    requires s.Valid() && v < TWO_32
    modifies s, s.buf
    ensures Wrote(s, ok, Some(LittleEndian(v, 4)))
  {
    FourBytes(v);
    ok := Write(s, [v % 256, v / 0x100 % 256, v / 0x1_0000 % 256, v / 0x100_0000 % 256]);
  }

  lemma {:induction false} FourBytes(v: nat)
    ensures LittleEndian(v, 4) == [v % 256, v / 0x100 % 256, v / 0x1_0000 % 256, v / 0x100_0000 % 256]
  {
    LittleEndianSplit(v, 0);
  }

  /** pb_encode_fixed64: the low four bytes, then the high four. */
  method WriteFixed64(s: OStream, v: nat) returns (ok: bool)
    requires s.Valid() && v < TWO_64
    modifies s, s.buf
    ensures Wrote(s, ok, Some(LittleEndian(v, 8)))
  {
    var h := v / 0x1_0000_0000;
    LittleEndianSplit(v, 4);
    FourBytes(h);
    ok := Write(s, [v % 256, v / 0x100 % 256, v / 0x1_0000 % 256, v / 0x100_0000 % 256,
                    h % 256, h / 0x100 % 256, h / 0x1_0000 % 256, h / 0x100_0000 % 256]);
  }

  lemma NextByte(v: nat, p: nat)
    requires p in {0x100, 0x1_0000, 0x100_0000}
    ensures v / p / 256 == v / (256 * p)
  {}

  lemma {:induction false} FirstByte(v: nat, n: nat, high: bytes)
    requires LittleEndian(v / 256, n) == high
    ensures LittleEndian(v, n + 1) == [v % 256] + high
  {}

  lemma {:induction false} LittleEndianSplit(v: nat, n: nat)
    ensures LittleEndian(v, n + 4)
      == [v % 256, v / 0x100 % 256, v / 0x1_0000 % 256, v / 0x100_0000 % 256] + LittleEndian(v / 0x1_0000_0000, n)
  {
    NextByte(v, 0x100);
    NextByte(v, 0x1_0000);
    NextByte(v, 0x100_0000);
    FourFrom(v, v / 0x100, v / 0x1_0000, v / 0x100_0000, LittleEndian(v / 0x1_0000_0000, n), n);
  }

  lemma {:induction false} FourFrom(v: nat, v1: nat, v2: nat, v3: nat, high: bytes, n: nat)
    requires v1 == v / 256 && v2 == v1 / 256 && v3 == v2 / 256 && high == LittleEndian(v3 / 256, n)
    ensures LittleEndian(v, n + 4) == [v % 256, v1 % 256, v2 % 256, v3 % 256] + high
  {
    FirstByte(v3, n, high);
    FirstByte(v2, n + 1, [v3 % 256] + high);
    FirstByte(v1, n + 2, [v2 % 256, v3 % 256] + high);
    FirstByte(v, n + 3, [v1 % 256, v2 % 256, v3 % 256] + high);
  }

  /** pb_encode_tag */
  method WriteTag(s: OStream, wireType: nat, tag: nat) returns (ok: bool)
    requires s.Valid() && wireType < 8 && tag < TWO_32
    modifies s, s.buf
    ensures Wrote(s, ok, Some(EncodeTag(wireType, tag)))
  {
    ok := WriteVarint(s, 8 * tag + wireType);
  }

  /** pb_encode_string */
  method WriteString(s: OStream, data: bytes) returns (ok: bool)
    requires s.Valid() && |data| < TWO_64
    modifies s, s.buf
    ensures Wrote(s, ok, Some(Delimited(data)))
  {
    ghost var p := Now(s);
    ok := WriteVarint(s, |data|);
    if !ok { return; }
    ghost var q := Now(s);
    ok := Write(s, data);
    InSequence(s.sizing, s.maxSize, p, q, Now(s), ok, EncodeVarint(|data|), Some(data));
  }
}
