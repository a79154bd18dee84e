/** Base 128 varints, zigzag and fixed-width integers of the Protocol Buffers
    encoding: what the bytes mean, and what the two varint decoders accept. */
module PbVarint {
  import opened Basics
  import opened Bits

  const TWO_32: nat := 0x1_0000_0000
  const TWO_64: nat := 0x1_0000_0000_0000_0000

  /** The bytes the encoder emits for v: seven bits a byte, least significant first. */
  function EncodeVarint(v: nat): (e: bytes)
    ensures |e| >= 1
    decreases v
  {
    if v < 128 then [v] else [v % 128 + 128] + EncodeVarint(v / 128)
  }

  /** Length of the varint at the front of bs: up to the first byte below 0x80. */
  function VarintLength(bs: bytes): (r: Option<nat>)
    ensures r.Some? ==> 1 <= r.value <= |bs|
    decreases |bs|
  {
    if bs == [] then None
    else if bs[0] < 128 then Some(1)
    else match VarintLength(bs[1..])
      case None => None
      case Some(n) => Some(n + 1)
  }

  /** The number that the seven-bit groups of s stand for. */
  function GroupsValue(s: bytes): nat {
    if s == [] then 0 else s[0] % 128 + 128 * GroupsValue(s[1..])
  }

  /** pb_decode_varint: at most ten bytes, of which a 64-bit word keeps the low bits. */
  function DecodeVarint(bs: bytes): (r: Parsed<nat>)
    ensures r.Done? ==> |r.rest| < |bs| && r.value < TWO_64
  {
    match VarintLength(bs)
    case None => Fail
    case Some(n) =>
      if n > 10 then Fail else
      var word := Low(GroupsValue(bs[..n]), 64);
      assert word < TWO_64 by { LowBound(GroupsValue(bs[..n]), 64); PowersOfTwo(); }
      Done(word, bs[n..])
  }

  /** pb_decode_varint32_eof after its first byte. The shift count is an 8-bit
      counter, so it wraps; past bit 32 only zero or sign-extension groups pass. */
  function DecodeVarint32Rest(bs: bytes, bitpos: nat, acc: nat): (r: Parsed<nat>)
    requires bitpos < 256
    ensures r.Done? ==> |r.rest| < |bs|
    decreases |bs|
  {
    if bs == [] then Fail else
    var b := bs[0];
    var signExtension := if bitpos < 63 then 0xFF else 0x01;
    if bitpos >= 32 && b % 128 != 0 && (acc / 0x8000_0000 == 0 || b != signExtension) then Fail else
    var acc' := if bitpos >= 32 then acc else Or(acc, Low(Shl(b % 128, bitpos), 32));
    var bitpos' := (bitpos + 7) % 256;
    if b >= 128 then DecodeVarint32Rest(bs[1..], bitpos', acc')
    else if bitpos' == 35 && b % 128 / 16 != 0 then Fail
    else Done(acc', bs[1..])
  }

  function DecodeVarint32(bs: bytes): (r: Parsed<nat>)
    ensures r.Done? ==> |r.rest| < |bs|
  {
    if bs == [] then Fail
    else if bs[0] < 128 then Done(bs[0] as nat, bs[1..])
    else DecodeVarint32Rest(bs[1..], 7, bs[0] % 128)
  }

  /** Two's complement views of a signed value in a 64-bit word. */
  function ToUnsigned(v: int, modulus: nat): nat
    requires modulus > 0
  {
    v % modulus
  }

  function ToSigned(u: nat, modulus: nat): int
    requires modulus > 0
  {
    var r := u % modulus;
    if r < modulus / 2 then r else r - modulus
  }

  /** pb_encode_svarint: ~(2v) for a negative v, 2v otherwise, in 64 bits. */
  function ZigZag(v: int): nat {
    var doubled := ToUnsigned(2 * v, TWO_64);
    if v < 0 then TWO_64 - 1 - doubled else doubled
  }

  /** pb_decode_svarint: ~(u >> 1) when the low bit is set. */
  function UnZigZag(u: nat): int
    requires u < TWO_64
  {
    ToSigned(if u % 2 == 1 then TWO_64 - 1 - u / 2 else u / 2, TWO_64)
  }

  /** n bytes of v, least significant first. */
  function LittleEndian(v: nat, n: nat): (e: bytes)
    ensures |e| == n
  {
    if n == 0 then [] else [v % 256] + LittleEndian(v / 256, n - 1)
  }

  function FromLittleEndian(s: bytes): nat {
    if s == [] then 0 else s[0] + 256 * FromLittleEndian(s[1..])
  }

  // ---- Round trips ------------------------------------------------------

  lemma {:induction false} EncodeVarintGroups(v: nat, rest: bytes)
    ensures VarintLength(EncodeVarint(v) + rest) == Some(|EncodeVarint(v)|)
    ensures GroupsValue(EncodeVarint(v)) == v
    decreases v
  {
    var e := EncodeVarint(v);
    if v < 128 {
      assert (e + rest)[0] == v;
      assert e[1..] == [];
    } else {
      EncodeVarintGroups(v / 128, rest);
      assert e[1..] == EncodeVarint(v / 128);
      assert (e + rest)[1..] == EncodeVarint(v / 128) + rest;
      assert (e + rest)[0] == v % 128 + 128;
    }
  }

  lemma {:induction false} EncodeVarintLength(v: nat, k: nat)
    requires k >= 1 && v < Pow2(7 * k)
    ensures |EncodeVarint(v)| <= k
    decreases k
  {
    if v >= 128 {
      assert Pow2(7) == 128 && k > 1;
      Pow2Add(7, 7 * (k - 1));
      assert v / 128 < Pow2(7 * (k - 1));
      EncodeVarintLength(v / 128, k - 1);
    }
  }

  /** Every 64-bit value survives encoding and decoding, in at most ten bytes. */
  lemma {:induction false} VarintRoundTrip(v: nat, rest: bytes)
    requires v < TWO_64
    ensures |EncodeVarint(v)| <= 10
    ensures DecodeVarint(EncodeVarint(v) + rest) == Done(v, rest)
  {
    EncodeVarintGroups(v, rest);
    assert Pow2(70) > TWO_64 by { Pow2Add(64, 6); PowersOfTwo(); }
    EncodeVarintLength(v, 10);
    var e := EncodeVarint(v);
    assert (e + rest)[..|e|] == e && (e + rest)[|e|..] == rest;
    PowersOfTwo();
    LowSmall(v, 64);
  }

  lemma PowersOfTwo()
    ensures Pow2(7) == 128 && Pow2(8) == 256 && Pow2(16) == 0x1_0000 && Pow2(6) == 64
    ensures Pow2(32) == TWO_32 && Pow2(64) == TWO_64 && Pow2(31) == 0x8000_0000
  {
    assert Pow2(8) == 256 && Pow2(7) == 128;
    Pow2Add(8, 8);
    Pow2Add(16, 16);
    Pow2Add(32, 32);
    assert Pow2(32) == 2 * Pow2(31);
  }

  lemma ZigZagRoundTrip(v: int)
    requires -0x8000_0000_0000_0000 <= v < 0x8000_0000_0000_0000
    ensures ZigZag(v) < TWO_64 && UnZigZag(ZigZag(v)) == v
    ensures ZigZag(v) == if v < 0 then -2 * v - 1 else 2 * v
  {
    if v < 0 { ZigZagNegative(v); } else { ZigZagPositive(v); }
  }

  lemma ZigZagPositive(v: int)
    requires 0 <= v < 0x8000_0000_0000_0000
    ensures ZigZag(v) == 2 * v && UnZigZag(2 * v) == v
  {
    WordOf(2 * v, 2 * v, 0);
    WordOf(v, v, 0);
    assert (2 * v) / 2 == v && (2 * v) % 2 == 0;
  }

  lemma ZigZagNegative(v: int)
    requires -0x8000_0000_0000_0000 <= v < 0
    ensures ZigZag(v) == -2 * v - 1 && UnZigZag(-2 * v - 1) == v
  {
    WordOf(2 * v, TWO_64 + 2 * v, -1);
    assert (-2 * v - 1) / 2 == -v - 1 && (-2 * v - 1) % 2 == 1;
  }

  lemma WordOf(v: int, r: nat, k: int)
    requires v == k * TWO_64 + r && r < TWO_64
    ensures v % TWO_64 == r
  {
    DivModUnique(v, TWO_64, k, r);
  }

  lemma {:induction false} LittleEndianRoundTrip(v: nat, n: nat)
    requires v < Pow2(8 * n)
    ensures FromLittleEndian(LittleEndian(v, n)) == v
    decreases n
  {
    if n > 0 {
      assert v / 256 < Pow2(8 * (n - 1)) by { Pow2Add(8, 8 * (n - 1)); assert Pow2(8) == 256; }
      LittleEndianRoundTrip(v / 256, n - 1);
      assert LittleEndian(v, n)[1..] == LittleEndian(v / 256, n - 1);
    }
  }

  // ---- The 32-bit decoder ----------------------------------------------

  /** Value of the seven-bit groups of s placed from bit position p on. */
  function Placed(s: bytes, p: nat): nat
    decreases |s|
  {
    if s == [] then 0 else Shl(s[0] % 128, p) + Placed(s[1..], p + 7)
  }

  lemma Spread(q: nat, g: nat, t: nat)
    ensures q * (g + 128 * t) == g * q + 128 * q * t
  {}

  lemma {:induction false} PlacedIsGroups(s: bytes, p: nat)
    ensures Placed(s, p) == Pow2(p) * GroupsValue(s)
    decreases |s|
  {
    if s != [] {
      PlacedIsGroups(s[1..], p + 7);
      var g, t, q := s[0] % 128, GroupsValue(s[1..]), Pow2(p);
      ShlValue(g, p);
      assert Pow2(p + 7) == 128 * q by { Pow2Add(p, 7); assert Pow2(7) == 128; }
      Spread(q, g, t);
    }
  }

  /** Groups placed at or above bit 32 add a multiple of 2^32. */
  lemma {:induction false} PlacedHigh(s: bytes, p: nat) returns (k: nat)
    requires p >= 32
    ensures Placed(s, p) == TWO_32 * k
    decreases |s|
  {
    if s == [] {
      k := 0;
    } else {
      k := PlacedHigh(s[1..], p + 7);
      var q := HighGroup(s[0] % 128, p);
      k := k + q;
    }
  }

  lemma HighGroup(g: nat, p: nat) returns (k: nat)
    requires p >= 32
    ensures Shl(g, p) == TWO_32 * k
  {
    var q := Pow2(p - 32);
    ShlValue(g, p);
    Pow2Add(32, p - 32);
    PowersOfTwo();
    Regroup(g, TWO_32, q);
    k := g * q;
  }

  lemma Regroup(a: nat, b: nat, c: nat)
    ensures a * (b * c) == b * (a * c)
  {}

  lemma ModAddMultiple(a: nat, k: nat, m: nat)
    requires m > 0
    ensures (a + m * k) % m == a % m
  {
    DivModUnique(a + m * k, m, a / m + k, a % m);
  }

  lemma Pow2Table()
    ensures Pow2(7) == 0x80 && Pow2(14) == 0x4000 && Pow2(21) == 0x20_0000
    ensures Pow2(28) == 0x1000_0000 && Pow2(35) == 0x8_0000_0000
  {
    PowersOfTwo();
    Pow2Add(7, 7);
    Pow2Add(7, 14);
    Pow2Add(7, 21);
    Pow2Add(7, 28);
  }

  /** What of a shifted group stays in a 32-bit word: all of it, except that at
      position 28 only the low four bits do. */
  lemma {:induction false} ShiftedGroup(g: nat, bitpos: nat)
    requires bitpos in {7, 14, 21, 28} && g < 128
    ensures Low(Shl(g, bitpos), 32) == (if bitpos == 28 then g % 16 else g) * Pow2(bitpos)
  {
    Pow2Table();
    ShlValue(g, bitpos);
    LowValue(Shl(g, bitpos), 32);
    PowersOfTwo();
    PlacedMod(g, Pow2(bitpos));
  }

  lemma PlacedMod(g: nat, p: nat)
    requires p in {0x80, 0x4000, 0x20_0000, 0x1000_0000} && g < 128
    ensures (g * p) % TWO_32 == (if p == 0x1000_0000 then g % 16 else g) * p
  {}

  lemma {:induction false} OrShifted(acc: nat, g: nat, bitpos: nat)
    requires bitpos in {7, 14, 21, 28} && acc < Pow2(bitpos) && g < 128
    ensures Or(acc, Low(Shl(g, bitpos), 32)) == acc + (if bitpos == 28 then g % 16 else g) * Pow2(bitpos)
    ensures Shl(g, bitpos) == g * Pow2(bitpos)
  {
    ShiftedGroup(g, bitpos);
    ShlValue(g, bitpos);
    OrDisjoint(acc, if bitpos == 28 then g % 16 else g, bitpos);
  }

  /** One group or-ed in below bit 32 adds its value, up to a multiple of 2^32. */
  lemma AddGroup(acc: nat, g: nat, bitpos: nat) returns (k: nat)
    requires bitpos in {7, 14, 21, 28} && acc < Pow2(bitpos) && g < 128
    ensures var acc' := Or(acc, Low(Shl(g, bitpos), 32));
      && acc + Shl(g, bitpos) == acc' + TWO_32 * k
      && acc' < TWO_32 && (bitpos < 28 ==> acc' < Pow2(bitpos + 7))
  {
    OrShifted(acc, g, bitpos);
    k := if bitpos == 28 then g / 16 else 0;
    GroupPlace(bitpos);
    PlacedBound(acc, g, Pow2(bitpos));
  }

  lemma GroupPlace(bitpos: nat)
    requires bitpos in {7, 14, 21, 28}
    ensures var p := Pow2(bitpos);
      && p in {0x80, 0x4000, 0x20_0000, 0x1000_0000} && (bitpos == 28 <==> p == 0x1000_0000)
      && (bitpos < 28 ==> Pow2(bitpos + 7) == 128 * p)
  {
    Pow2Table();
  }

  lemma PlacedBound(acc: nat, g: nat, p: nat)
    requires p in {0x80, 0x4000, 0x20_0000, 0x1000_0000} && g < 128 && acc < p
    ensures var h := if p == 0x1000_0000 then g % 16 else g;
      && acc + g * p == acc + h * p + TWO_32 * (if p == 0x1000_0000 then g / 16 else 0)
      && acc + h * p < TWO_32 && (p < 0x1000_0000 ==> acc + h * p < 128 * p)
  {}

  /** Past bit 32, and before the shift count wraps, the result is kept. */
  lemma {:induction false} Decode32HighRest(bs: bytes, bitpos: nat, acc: nat)
    requires 32 <= bitpos < 256 && VarintLength(bs).Some? && bitpos + 7 * VarintLength(bs).value <= 256
    requires DecodeVarint32Rest(bs, bitpos, acc).Done?
    ensures DecodeVarint32Rest(bs, bitpos, acc) == Done(acc, bs[VarintLength(bs).value..])
    decreases |bs|
  {
    if bs[0] >= 128 {
      Decode32HighRest(bs[1..], bitpos + 7, acc);
      var n := VarintLength(bs).value;
      assert bs[1..][n - 1..] == bs[n..];
    }
  }

  lemma Decode32Step(bs: bytes, bitpos: nat, acc: nat)
    requires bitpos < 32 && DecodeVarint32Rest(bs, bitpos, acc).Done?
    ensures var acc' := Or(acc, Low(Shl(bs[0] % 128, bitpos), 32));
      DecodeVarint32Rest(bs, bitpos, acc)
        == if bs[0] >= 128 then DecodeVarint32Rest(bs[1..], bitpos + 7, acc') else Done(acc', bs[1..])
  {
    assert (bitpos + 7) % 256 == bitpos + 7;
    var acc' := Or(acc, Low(Shl(bs[0] % 128, bitpos), 32));
    assert bs[0] >= 128 ==> DecodeVarint32Rest(bs, bitpos, acc) == DecodeVarint32Rest(bs[1..], bitpos + 7, acc');
  }

  /** While the shift count has not wrapped, a successful 32-bit decode agrees
      modulo 2^32 with the plain reading of the same bytes. */
  lemma Decode32RestAgrees(bs: bytes, bitpos: nat, acc: nat) returns (k: nat)
    requires bitpos in {7, 14, 21, 28} && acc < Pow2(bitpos)
    requires VarintLength(bs).Some? && VarintLength(bs).value < 32
    requires DecodeVarint32Rest(bs, bitpos, acc).Done?
    ensures var r, n := DecodeVarint32Rest(bs, bitpos, acc), VarintLength(bs).value;
      && r.rest == bs[n..] && r.value < TWO_32
      && acc + Placed(bs[..n], bitpos) == r.value + TWO_32 * k
    decreases |bs|, 0
  {
    var n, g := VarintLength(bs).value, bs[0] % 128;
    var acc' := Or(acc, Low(Shl(g, bitpos), 32));
    k := AddGroup(acc, g, bitpos);
    Decode32Step(bs, bitpos, acc);
    FirstGroupSplit(bs, bitpos);
    if bs[0] >= 128 {
      var k' := LaterGroups(bs[1..], bitpos, acc');
      var r, later := DecodeVarint32Rest(bs, bitpos, acc).value, Placed(bs[1..][..n - 1], bitpos + 7);
      AddUp(acc, Shl(g, bitpos), acc', k, later, r, k');
      k := k + k';
    }
  }

  /** The groups after the one at bitpos: below bit 32 they count, above it they do not. */
  lemma LaterGroups(bs: bytes, bitpos: nat, acc: nat) returns (k: nat)
    requires bitpos in {7, 14, 21, 28} && acc < TWO_32 && (bitpos < 28 ==> acc < Pow2(bitpos + 7))
    requires VarintLength(bs).Some? && VarintLength(bs).value < 31
    requires DecodeVarint32Rest(bs, bitpos + 7, acc).Done?
    ensures var r, n := DecodeVarint32Rest(bs, bitpos + 7, acc), VarintLength(bs).value;
      && r.rest == bs[n..] && r.value < TWO_32
      && acc + Placed(bs[..n], bitpos + 7) == r.value + TWO_32 * k
    decreases |bs|, 1
  {
    if bitpos == 28 {
      k := PlacedHigh(bs[..VarintLength(bs).value], 35);
      Decode32HighRest(bs, 35, acc);
    } else {
      k := Decode32RestAgrees(bs, bitpos + 7, acc);
    }
  }

  lemma AddUp(acc: nat, x: nat, acc': nat, k: nat, y: nat, r: nat, k': nat)
    requires acc + x == acc' + TWO_32 * k && acc' + y == r + TWO_32 * k'
    ensures acc + (x + y) == r + TWO_32 * (k + k')
  {}

  lemma {:induction false} FirstGroupSplit(bs: bytes, p: nat)
    requires VarintLength(bs).Some?
    ensures var n := VarintLength(bs).value;
      if bs[0] < 128 then (n == 1 && Placed(bs[..n], p) == Shl(bs[0] % 128, p))
      else (VarintLength(bs[1..]) == Some(n - 1) && bs[1..][n - 1..] == bs[n..]
        && Placed(bs[..n], p) == Shl(bs[0] % 128, p) + Placed(bs[1..][..n - 1], p + 7))
  {
    var n := VarintLength(bs).value;
    assert bs[..n][1..] == if bs[0] < 128 then [] else bs[1..][..n - 1];
  }

  lemma Decode32Agrees(bs: bytes) returns (k: nat)
    requires DecodeVarint32(bs).Done?
    requires VarintLength(bs).Some? ==> VarintLength(bs).value <= 10
    ensures VarintLength(bs).Some?
    ensures var r, n := DecodeVarint32(bs), VarintLength(bs).value;
      r.rest == bs[n..] && r.value < TWO_32 && GroupsValue(bs[..n]) == r.value + TWO_32 * k
  {
    Decode32HasLength(bs);
    var s := bs[..VarintLength(bs).value];
    if bs[0] < 128 {
      assert s[1..] == [];
      k := 0;
    } else {
      assert bs[1..][..|s| - 1] == s[1..] && bs[1..][|s| - 1..] == bs[|s|..];
      assert Pow2(7) == 128;
      PlacedIsGroups(s[1..], 7);
      k := Decode32RestAgrees(bs[1..], 7, bs[0] % 128);
    }
  }

  /** On any input of at most ten bytes that the 32-bit decoder accepts, it
      consumes what the 64-bit decoder consumes and returns the low 32 bits. */
  lemma {:induction false} Varint32IsLowHalf(bs: bytes)
    requires DecodeVarint32(bs).Done?
    requires VarintLength(bs).Some? ==> VarintLength(bs).value <= 10
    ensures DecodeVarint(bs).Done?
    ensures DecodeVarint32(bs) == Done(DecodeVarint(bs).value % TWO_32, DecodeVarint(bs).rest)
  {
    var k := Decode32Agrees(bs);
    LowHalf(GroupsValue(bs[..VarintLength(bs).value]), DecodeVarint32(bs).value, k);
  }

  lemma {:induction false} LowHalf(a: nat, r: nat, k: nat)
    requires a == r + TWO_32 * k && r < TWO_32
    ensures Low(a, 64) % TWO_32 == r
  {
    PowersOfTwo();
    LowValue(a, 64);
    ModAddMultiple(a % TWO_64, a / TWO_64 * TWO_32, TWO_32);
    ModAddMultiple(r, k, TWO_32);
  }

  lemma {:induction false} Decode32RestHasLength(bs: bytes, bitpos: nat, acc: nat)
    requires bitpos < 256 && DecodeVarint32Rest(bs, bitpos, acc).Done?
    ensures VarintLength(bs).Some?
    decreases |bs|
  {
    if bs[0] >= 128 {
      var acc' := if bitpos >= 32 then acc else Or(acc, Low(Shl(bs[0] % 128, bitpos), 32));
      Decode32RestHasLength(bs[1..], (bitpos + 7) % 256, acc');
    }
  }

  lemma {:induction false} Decode32HasLength(bs: bytes)
    requires DecodeVarint32(bs).Done?
    ensures VarintLength(bs).Some?
  {
    if bs[0] >= 128 { Decode32RestHasLength(bs[1..], 7, bs[0] % 128); }
  }
}
