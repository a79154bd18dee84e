/** pb_istream_t over a memory buffer and the primitive readers of pb_decode.c.
    A stream is a cursor and a number of bytes left; a substream shares the buffer. */
module PbReader {
  import opened Basics
  import opened Bits
  import opened PbVarint
  import opened PbTypes
  import opened PbDecodeSpec

  datatype Error = NoError | EndOfStream | VarintOverflow | ParentTooShort | InvalidWireType
    | InvalidDataSize | IntegerTooLarge | BytesOverflow | StringOverflow | InvalidDescriptor
    | IncorrectFixedLength | ArrayOverflow | WrongFixedCount | MissingRequired | InvalidLayout

  class IStream {
    const data: bytes
    var state: nat
    var bytesLeft: nat
    var err: Error

    /** No read leaves the buffer. */
    ghost predicate Valid()
      reads this
    {
      state + bytesLeft <= |data|
    }

    /** The bytes the stream may still read. */
    ghost function Rest(): (r: bytes)
      requires Valid()
      reads this
      ensures |r| == bytesLeft
    {
      data[state..state + bytesLeft]
    }

    /** pb_istream_from_buffer, for count bytes from offset on. */
    constructor (data: bytes, offset: nat, count: nat)
      requires offset + count <= |data|
      ensures Valid() && this.data == data && state == offset && bytesLeft == count && err == NoError
    {
      this.data := data;
      state, bytesLeft, err := offset, count, NoError;
    }

    /** PB_SET_ERROR keeps the first error. */
    method SetError(e: Error)
      modifies this`err
    {
      if err == NoError { err := e; }
    }
  }

  /** The cursor advances by exactly the bytes consumed when a reader succeeds;
      when it fails the stream still ends no later than before. */
  twostate predicate Ran(s: IStream, ok: bool)
    reads s
  {
    && s.Valid()
    && s.state + s.bytesLeft <= old(s.state + s.bytesLeft)
    && s.bytesLeft <= old(s.bytesLeft)
    && (ok ==> s.state + s.bytesLeft == old(s.state + s.bytesLeft))
  }

  /** pb_read: callers that skip ignore the data. */
  method Take(s: IStream, count: nat) returns (ok: bool, b: bytes)
    requires s.Valid()
    modifies s
    ensures Ran(s, ok)
    ensures match Read(old(s.Rest()), count)
      case Fail => !ok
      case Done(v, rest) => ok && b == v && s.Rest() == rest
  {
    if s.bytesLeft < count {
      s.SetError(EndOfStream);
      return false, [];
    }
    b := s.data[s.state..s.state + count];
    assert b == s.Rest()[..count] && s.data[s.state + count..s.state + s.bytesLeft] == s.Rest()[count..];
    s.state := s.state + count;
    s.bytesLeft := s.bytesLeft - count;
    return true, b;
  }

  /** pb_readbyte */
  method TakeByte(s: IStream) returns (ok: bool, b: byte)
    requires s.Valid()
    modifies s
    ensures Ran(s, ok)
    ensures ok <==> old(s.bytesLeft) > 0
    ensures ok ==> b == old(s.Rest())[0] && s.Rest() == old(s.Rest())[1..]
    ensures !ok ==> s.bytesLeft == 0
  {
    if s.bytesLeft == 0 {
      s.SetError(EndOfStream);
      return false, 0;
    }
    b := s.data[s.state];
    s.state := s.state + 1;
    s.bytesLeft := s.bytesLeft - 1;
    return true, b;
  }

  /** pb_decode_varint32_eof: eof tells an empty stream from a broken varint. */
  method ReadVarint32Eof(s: IStream) returns (ok: bool, dest: nat, eof: bool)
    requires s.Valid()
    modifies s
    ensures Ran(s, ok)
    ensures match DecodeVarint32(old(s.Rest()))
      case Fail => !ok && (eof <==> old(s.bytesLeft) == 0)
      case Done(v, rest) => ok && dest == v && s.Rest() == rest && !eof
  {
    ghost var input := s.Rest();
    var b: byte;
    ok, b := TakeByte(s);
    if !ok { return false, 0, s.bytesLeft == 0; }
    var result: nat := b;
    if b >= 128 {
      var bitpos: nat := 7;
      result := b % 128;
      var more := true;
      while more
        invariant s.Valid() && bitpos < 256
        invariant s.state + s.bytesLeft == old(s.state + s.bytesLeft) && s.bytesLeft < old(s.bytesLeft)
        invariant more ==> DecodeVarint32(input) == DecodeVarint32Rest(s.Rest(), bitpos, result)
        invariant !more ==> b < 128
        invariant var r := if bitpos == 35 && b % 128 / 16 != 0 then Fail else Done(result, s.Rest());
          !more ==> DecodeVarint32(input) == r
        decreases s.bytesLeft, more
      {
        ok, b := TakeByte(s);
        if !ok { return false, 0, false; }
        if bitpos >= 32 {
          // trailing 0x80 bytes, or 0xFF for a negative value
          var signExtension: byte := if bitpos < 63 then 0xFF else 0x01;
          if b % 128 != 0 && (result / 0x8000_0000 == 0 || b != signExtension) {
            s.SetError(VarintOverflow);
            return false, 0, false;
          }
        } else {
          result := Or(result, Low(Shl(b % 128, bitpos), 32));
        }
        bitpos := (bitpos + 7) % 256;
        more := b >= 128;
      }
      if bitpos == 35 && b % 128 / 16 != 0 {
        s.SetError(VarintOverflow);
        return false, 0, false;
      }
    }
    return true, result, false;
  }

  /** The 64-bit word after n bytes have been or-ed in. */
  ghost function OrGroups(s: bytes, n: nat): nat
    requires n <= |s|
  {
    if n == 0 then 0 else Or(OrGroups(s, n - 1), Low(Shl(s[n - 1] % 128, 7 * (n - 1)), 64))
  }

  lemma {:induction false} OrGroupsValue(s: bytes, n: nat)
    requires n <= |s| && n <= 10
    ensures OrGroups(s, n) == Low(GroupsValue(s[..n]), 64)
    decreases n
  {
    if n == 0 {
      assert s[..0] == [];
      LowSmall(0, 64);
    } else {
      OrGroupsValue(s, n - 1);
      NextGroup64(s, n - 1);
    }
  }

  /** One more group or-ed into a 64-bit word. */
  lemma NextGroup64(s: bytes, n: nat)
    requires n < |s|
    ensures Or(Low(GroupsValue(s[..n]), 64), Low(Shl(s[n] % 128, 7 * n), 64)) == Low(GroupsValue(s[..n + 1]), 64)
  {
    var a, x := GroupsValue(s[..n]), Shl(s[n] % 128, 7 * n);
    LowOr(a, x, 64);
    assert Or(a, x) == GroupsValue(s[..n + 1]) by {
      GroupsSnoc(s, n);
      ShlValue(s[n] % 128, 7 * n);
      OrDisjoint(a, s[n] % 128, 7 * n);
    }
  }

  lemma {:induction false} GroupsSnoc(s: bytes, n: nat)
    requires n < |s|
    ensures GroupsValue(s[..n]) < Pow2(7 * n)
    ensures GroupsValue(s[..n + 1]) == GroupsValue(s[..n]) + s[n] % 128 * Pow2(7 * n)
    decreases n
  {
    if n > 0 {
      GroupsSnoc(s[1..], n - 1);
      assert s[..n][1..] == s[1..][..n - 1] && s[..n + 1][1..] == s[1..][..n];
      NextPlace(n);
      Factor(s[0] % 128, GroupsValue(s[1..][..n - 1]), s[n] % 128, Pow2(7 * (n - 1)));
    } else {
      assert s[..1][1..] == [];
    }
  }

  lemma {:induction false} NextPlace(n: nat)
    requires n > 0
    ensures Pow2(7 * n) == 128 * Pow2(7 * (n - 1))
  {
    Pow2Add(7, 7 * (n - 1));
    assert Pow2(7) == 128;
  }

  lemma Factor(low: nat, mid: nat, g: nat, p: nat)
    requires low < 128
    ensures low + 128 * (mid + g * p) == (low + 128 * mid) + g * (128 * p)
    ensures mid < p ==> low + 128 * mid < 128 * p
  {}

  /** Storing to a word distributes over or. */
  lemma {:induction false} LowOr(a: nat, b: nat, w: nat)
    ensures Or(Low(a, w), Low(b, w)) == Low(Or(a, b), w)
  {
    LowBound(a, w);
    LowBound(b, w);
    LowBound(Or(a, b), w);
    OrBound(Low(a, w), Low(b, w), w);
    forall i: nat | i < w
      ensures Bit(Or(Low(a, w), Low(b, w)), i) == Bit(Low(Or(a, b), w), i)
    {
      OrBit(Low(a, w), Low(b, w), i);
      OrBit(a, b, i);
      LowBit(a, w, i);
      LowBit(b, w, i);
      LowBit(Or(a, b), w, i);
    }
    SameBits(Or(Low(a, w), Low(b, w)), Low(Or(a, b), w), w);
  }

  ghost function Plus(n: nat, r: Option<nat>): Option<nat> {
    if r.Some? then Some(n + r.value) else None
  }

  /** n bytes of input are read and or-ed into result, and rest follows them. */
  ghost predicate GroupsRead(input: bytes, rest: bytes, n: nat, result: nat, more: bool) {
    && n <= |input| && rest == input[n..] && result == OrGroups(input, n)
    && VarintLength(input) == if more then Plus(n, VarintLength(rest)) else Some(n)
  }

  lemma {:induction false} OneGroup(input: bytes, rest: bytes, n: nat, result: nat)
    requires GroupsRead(input, rest, n, result, true) && rest != []
    ensures GroupsRead(input, rest[1..], n + 1, Or(result, Low(Shl(rest[0] % 128, 7 * n), 64)), rest[0] >= 128)
  {
    assert rest[0] == input[n] && rest[1..] == input[n + 1..];
  }

  /** One round of the loop: a byte is read and its group or-ed in. */
  method TakeGroup(s: IStream, bitpos: nat, result: nat, ghost input: bytes, ghost n: nat)
      returns (ok: bool, result': nat, more: bool)
    requires s.Valid() && GroupsRead(input, s.Rest(), n, result, true) && bitpos == 7 * n
    modifies s
    ensures Ran(s, ok) && (ok <==> old(s.bytesLeft) > 0)
    ensures ok ==> s.bytesLeft < old(s.bytesLeft) && GroupsRead(input, s.Rest(), n + 1, result', more)
  {
    ghost var rest := s.Rest();
    var b: byte;
    ok, b := TakeByte(s);
    if !ok { return false, result, true; }
    OneGroup(input, rest, n, result);
    return true, Or(result, Low(Shl(b % 128, bitpos), 64)), b >= 128;
  }

  /** pb_decode_varint */
  method ReadVarint(s: IStream) returns (ok: bool, dest: nat)
    requires s.Valid()
    modifies s
    ensures Ran(s, ok)
    ensures match DecodeVarint(old(s.Rest()))
      case Fail => !ok
      case Done(v, rest) => ok && dest == v && s.Rest() == rest
  {
    ghost var input, n: nat := s.Rest(), 0;
    var bitpos, result, more := 0, 0, true;
    while more
      invariant s.Valid() && s.state + s.bytesLeft == old(s.state + s.bytesLeft) && s.bytesLeft <= old(s.bytesLeft)
      invariant GroupsRead(input, s.Rest(), n, result, more) && n <= 10 && bitpos == 7 * n
      decreases s.bytesLeft, more
    {
      if bitpos >= 64 {
        s.SetError(VarintOverflow);
        return false, 0;
      }
      ok, result, more := TakeGroup(s, bitpos, result, input, n);
      if !ok { return false, 0; }
      bitpos := (bitpos + 7) % 256;
      n := n + 1;
    }
    OrGroupsValue(input, n);
    return true, result;
  }

  /** pb_skip_varint */
  method DropVarint(s: IStream) returns (ok: bool)
    requires s.Valid()
    modifies s
    ensures Ran(s, ok)
    ensures match SkipVarint(old(s.Rest()))
      case Fail => !ok
      case Done(_, rest) => ok && s.Rest() == rest
  {
    ghost var input := s.Rest();
    var more := true;
    while more
      invariant s.Valid() && s.state + s.bytesLeft == old(s.state + s.bytesLeft) && s.bytesLeft <= old(s.bytesLeft)
      invariant if more then SkipVarint(input) == SkipVarint(s.Rest()) else SkipVarint(input) == Done((), s.Rest())
      decreases s.bytesLeft, more
    {
      ghost var here := s.Rest();
      var b: bytes;
      ok, b := Take(s, 1);
      if !ok { return false; }
      more := b[0] >= 128;
      assert VarintLength(here[1..]).Some? ==>
        here[1..][VarintLength(here[1..]).value..] == here[VarintLength(here[1..]).value + 1..];
    }
    return true;
  }

  /** pb_skip_string */
  method DropString(s: IStream) returns (ok: bool)
    requires s.Valid()
    modifies s
    ensures Ran(s, ok)
    ensures match Payload(old(s.Rest()))
      case Fail => !ok
      case Done(_, rest) => ok && s.Rest() == rest
  {
    var length: nat, eof;
    ok, length, eof := ReadVarint32Eof(s);
    if !ok { return; }
    var b: bytes;
    ok, b := Take(s, length);
  }

  /** pb_skip_field */
  method DropField(s: IStream, wireType: nat) returns (ok: bool)
    requires s.Valid()
    modifies s
    ensures Ran(s, ok)
    ensures match SkipField(wireType, old(s.Rest()))
      case Fail => !ok
      case Done(_, rest) => ok && s.Rest() == rest
    ensures wireType == 1 ==> if |old(s.Rest())| >= 8 then ok && s.Rest() == old(s.Rest())[8..] else !ok
    ensures wireType == 5 ==> if |old(s.Rest())| >= 4 then ok && s.Rest() == old(s.Rest())[4..] else !ok
    ensures wireType !in {0, 1, 2, 5} ==> !ok
  {
    var b: bytes;
    if wireType == WT_VARINT {
      ok := DropVarint(s);
    } else if wireType == WT_64BIT {
      ok, b := Take(s, 8);
    } else if wireType == WT_STRING {
      ok := DropString(s);
    } else if wireType == WT_32BIT {
      ok, b := Take(s, 4);
    } else {
      s.SetError(InvalidWireType);
      ok := false;
    }
  }

  /** pb_decode_tag: a zero tag ends the message like the end of the stream. */
  method ReadTag(s: IStream) returns (ok: bool, wireType: nat, tag: nat, eof: bool)
    requires s.Valid()
    modifies s
    ensures s.Valid() && s.state + s.bytesLeft <= old(s.state + s.bytesLeft) && s.bytesLeft <= old(s.bytesLeft)
    ensures match DecodeVarint32(old(s.Rest()))
      case Fail => !ok && (eof <==> old(s.bytesLeft) == 0)
      case Done(key, rest) =>
        && s.Rest() == rest && s.state + s.bytesLeft == old(s.state + s.bytesLeft)
        && (if key == 0 then !ok && eof else ok && tag == key / 8 && wireType == key % 8)
  {
    var temp: nat;
    ok, temp, eof := ReadVarint32Eof(s);
    if !ok { return false, 0, 0, eof; }
    if temp == 0 { return false, 0, 0, true; }
    return true, temp % 8, temp / 8, false;
  }

  /** pb_make_string_substream: the parent gives up the substream's bytes but does
      not move its cursor yet. */
  method MakeSubstream(s: IStream) returns (ok: bool, sub: IStream)
    requires s.Valid()
    modifies s
    ensures s.Valid() && s.state + s.bytesLeft <= old(s.state + s.bytesLeft) && s.bytesLeft <= old(s.bytesLeft)
    ensures match Payload(old(s.Rest()))
      case Fail => !ok
      case Done(body, rest) =>
        && ok && fresh(sub) && sub.Valid() && sub.Rest() == body && s.bytesLeft == |rest|
        && sub.data == s.data && sub.state == s.state
        && sub.state + sub.bytesLeft + s.bytesLeft == old(s.state + s.bytesLeft)
        && rest == s.data[sub.state + sub.bytesLeft..sub.state + sub.bytesLeft + s.bytesLeft]
  {
    sub := s;
    var size: nat, eof;
    ok, size, eof := ReadVarint32Eof(s);
    if !ok { return; }
    if s.bytesLeft < size {
      s.SetError(ParentTooShort);
      ok := false;
      return;
    }
    sub := new IStream(s.data, s.state, size);
    s.bytesLeft := s.bytesLeft - size;
  }

  /** pb_close_string_substream: skips what the inner decoder left and moves the parent there. */
  method CloseSubstream(s: IStream, sub: IStream) returns (ok: bool)
    requires s.Valid() && sub.Valid() && s != sub && s.data == sub.data
    requires sub.state + sub.bytesLeft + s.bytesLeft <= |s.data|
    modifies s, sub
    ensures ok && s.Valid() && s.bytesLeft == old(s.bytesLeft)
    ensures s.state == old(sub.state + sub.bytesLeft)
  {
    if sub.bytesLeft > 0 {
      var b: bytes;
      ok, b := Take(sub, sub.bytesLeft);
      if !ok { return; }
    }
    s.state := sub.state;
    s.err := sub.err;
    return true;
  }
}
