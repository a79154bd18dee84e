/** Which encoder outputs the 32-bit varint decoder accepts. */
module PbVarintWidth {
  import opened Basics
  import opened Bits
  import opened PbVarint

  /** u is what remains at bit position p of a value below 2^32. */
  predicate FitsFrom(u: nat, p: nat)
    requires p <= 32
  {
    u < Pow2(32 - p)
  }

  /** u is what remains at bit position p of a negative int32 sign-extended to 64 bits. */
  predicate NegativeFrom(u: nat, p: nat)
    requires p <= 31
  {
    Pow2(64 - p) - Pow2(31 - p) <= u < Pow2(64 - p)
  }

  lemma {:induction false} EncodeVarintUnfold(u: nat, rest: bytes)
    requires u >= 128
    ensures (EncodeVarint(u) + rest)[0] == u % 128 + 128
    ensures (EncodeVarint(u) + rest)[1..] == EncodeVarint(u / 128) + rest
  {}

  lemma Powers()
    ensures Pow2(64) == TWO_64 && Pow2(57) == 0x200_0000_0000_0000 && Pow2(50) == 0x4_0000_0000_0000
    ensures Pow2(43) == 0x800_0000_0000 && Pow2(36) == 0x10_0000_0000 && Pow2(32) == TWO_32
    ensures Pow2(31) == 0x8000_0000 && Pow2(25) == 0x200_0000 && Pow2(24) == 0x100_0000
    ensures Pow2(18) == 0x4_0000 && Pow2(17) == 0x2_0000 && Pow2(11) == 0x800 && Pow2(10) == 0x400
    ensures Pow2(4) == 16 && Pow2(3) == 8
  {
    PowersOfTwo();
    assert Pow2(10) == 0x400 && Pow2(11) == 0x800 && Pow2(3) == 8;
    Pow2Add(7, 10);
    Pow2Add(7, 11);
    Pow2Add(7, 17);
    Pow2Add(7, 18);
    Pow2Add(4, 32);
    Pow2Add(7, 36);
    Pow2Add(7, 43);
    Pow2Add(7, 50);
  }

  lemma NextGroup(u: nat, p: nat)
    requires p in {0, 7, 14, 21}
    ensures FitsFrom(u, p) ==> FitsFrom(u / 128, p + 7)
    ensures NegativeFrom(u, p) ==> NegativeFrom(u / 128, p + 7) && u >= 128
  {
    Powers();
  }

  /** Five groups of all ones above bit 35 read as a sign extension. */
  lemma {:induction false} SignExtension(rest: bytes, acc: nat)
    requires acc / 0x8000_0000 == 1
    ensures DecodeVarint32Rest(EncodeVarint(0x1FFF_FFFF) + rest, 35, acc) == Done(acc, rest)
  {
    var u := 0x1FFF_FFFF;
    EncodeVarintUnfold(u, rest);
    EncodeVarintUnfold(u / 128, rest);
    EncodeVarintUnfold(u / 128 / 128, rest);
    EncodeVarintUnfold(u / 128 / 128 / 128, rest);
    assert EncodeVarint(1) + rest == [1] + rest && ([1] + rest)[1..] == rest;
    var s4 := [1] + rest;
    var s3, s2 := EncodeVarint(0xFF) + rest, EncodeVarint(0x7FFF) + rest;
    var s1 := EncodeVarint(0x3F_FFFF) + rest;
    assert DecodeVarint32Rest(s4, 63, acc) == Done(acc, rest);
    assert DecodeVarint32Rest(s3, 56, acc) == Done(acc, rest);
    assert DecodeVarint32Rest(s2, 49, acc) == Done(acc, rest);
    assert DecodeVarint32Rest(s1, 42, acc) == Done(acc, rest);
  }

  lemma {:induction false} AcceptsFrom(u: nat, p: nat, acc: nat, rest: bytes)
    requires p in {7, 14, 21, 28} && acc < Pow2(p)
    requires FitsFrom(u, p) || NegativeFrom(u, p)
    ensures DecodeVarint32Rest(EncodeVarint(u) + rest, p, acc).Done?
    decreases 28 - p, 1
  {
    var s := EncodeVarint(u) + rest;
    if u < 128 {
      SmallFrom(u, p);
      assert s == [u] + rest;
      LastGroup(s, p, acc);
    } else {
      EncodeVarintUnfold(u, rest);
      ContinuationGroup(s, u % 128, p, acc);
      AcceptsLater(u, p, acc, rest);
    }
  }

  /** The groups after the one at p. */
  lemma {:induction false} AcceptsLater(u: nat, p: nat, acc: nat, rest: bytes)
    requires p in {7, 14, 21, 28} && acc < Pow2(p) && u >= 128
    requires FitsFrom(u, p) || NegativeFrom(u, p)
    ensures DecodeVarint32Rest(EncodeVarint(u / 128) + rest, p + 7, Or(acc, Low(Shl(u % 128, p), 32))).Done?
    decreases 28 - p, 0
  {
    var acc' := Or(acc, Low(Shl(u % 128, p), 32));
    if p < 28 {
      var _ := AddGroup(acc, u % 128, p);
      NextGroup(u, p);
      AcceptsFrom(u / 128, p + 7, acc', rest);
    } else {
      LastNegativeGroup(u, acc);
      SignExtension(rest, acc');
    }
  }

  lemma SmallFrom(u: nat, p: nat)
    requires p in {7, 14, 21, 28} && u < 128 && (FitsFrom(u, p) || NegativeFrom(u, p))
    ensures p == 28 ==> u < 16
  {
    Powers();
  }

  lemma {:induction false} LastGroup(s: bytes, p: nat, acc: nat)
    requires |s| > 0 && s[0] < 128 && p in {7, 14, 21, 28} && (p == 28 ==> s[0] < 16)
    ensures DecodeVarint32Rest(s, p, acc).Done?
  {
    assert (p + 7) % 256 == p + 7;
  }

  lemma ContinuationGroup(s: bytes, g: nat, p: nat, acc: nat)
    requires |s| > 0 && s[0] == g + 128 && g < 128 && p < 32
    ensures DecodeVarint32Rest(s, p, acc)
      == DecodeVarint32Rest(s[1..], p + 7, Or(acc, Low(Shl(g, p), 32)))
  {
    assert s[0] % 128 == g && (p + 7) % 256 == p + 7;
  }

  lemma {:induction false} LastNegativeGroup(u: nat, acc: nat)
    requires u >= 128 && acc < Pow2(28) && (FitsFrom(u, 28) || NegativeFrom(u, 28))
    ensures u / 128 == 0x1FFF_FFFF
    ensures Or(acc, Low(Shl(u % 128, 28), 32)) / 0x8000_0000 == 1
  {
    Powers();
    OrShifted(acc, u % 128, 28);
    assert 0x10_0000_0000 - 8 <= u < 0x10_0000_0000;
    assert Pow2(28) == 0x1000_0000 by { Pow2Table(); }
    assert 8 <= u % 128 % 16 < 16;
  }

  /** Values below 2^32 decode to themselves. */
  lemma {:induction false} Varint32RoundTrip(v: nat, rest: bytes)
    requires v < TWO_32
    ensures DecodeVarint32(EncodeVarint(v) + rest) == Done(v, rest)
  {
    assert FitsFrom(v, 0) && v % TWO_32 == v by { PowersOfTwo(); }
    Accepts(v, rest);
    ReadsGroups(v, rest);
  }

  /** Negative int32 values, which the encoder writes as ten bytes, decode to
      their low 32 bits. */
  lemma NegativeInt32Decodes(v: int, rest: bytes)
    requires -0x8000_0000 <= v < 0
    ensures DecodeVarint32(EncodeVarint(TWO_64 + v) + rest) == Done(TWO_32 + v, rest)
    ensures ToSigned(TWO_32 + v, TWO_32) == v
  {
    var u: nat := TWO_64 + v;
    NegativeWord(v);
    Accepts(u, rest);
    ReadsGroups(u, rest);
  }

  lemma NegativeWord(v: int)
    requires -0x8000_0000 <= v < 0
    ensures NegativeFrom(TWO_64 + v, 0)
    ensures (TWO_64 + v) % TWO_32 == TWO_32 + v && ToSigned(TWO_32 + v, TWO_32) == v
  {
    PowersOfTwo();
    DivModUnique(TWO_64 + v, TWO_32, TWO_32 - 1, TWO_32 + v);
  }

  lemma {:induction false} Accepts(u: nat, rest: bytes)
    requires FitsFrom(u, 0) || NegativeFrom(u, 0)
    ensures DecodeVarint32(EncodeVarint(u) + rest).Done?
  {
    if u < 128 {
      assert EncodeVarint(u) + rest == [u] + rest;
    } else {
      FirstGroup(u, rest);
      NextGroup(u, 0);
      AcceptsFrom(u / 128, 7, u % 128, rest);
    }
  }

  lemma {:induction false} FirstGroup(u: nat, rest: bytes)
    requires u >= 128
    ensures u % 128 < Pow2(7)
    ensures DecodeVarint32(EncodeVarint(u) + rest) == DecodeVarint32Rest(EncodeVarint(u / 128) + rest, 7, u % 128)
  {
    EncodeVarintUnfold(u, rest);
    assert Pow2(7) == 128;
    assert (EncodeVarint(u) + rest)[0] % 128 == u % 128;
  }

  /** Whatever the 32-bit decoder accepts of the encoding of u is u modulo 2^32. */
  lemma {:induction false} ReadsGroups(u: nat, rest: bytes)
    requires u < TWO_64
    requires DecodeVarint32(EncodeVarint(u) + rest).Done?
    ensures DecodeVarint32(EncodeVarint(u) + rest) == Done(u % TWO_32, rest)
  {
    VarintRoundTrip(u, rest);
    EncodeVarintGroups(u, rest);
    Varint32IsLowHalf(EncodeVarint(u) + rest);
  }

  /** Above bit 32 a byte below 0x80 that is not zero fails, and others do not change acc. */
  lemma HighByte(s: bytes, p: nat, acc: nat)
    requires 32 <= p < 63 && s != []
    ensures 0 < s[0] < 128 ==> DecodeVarint32Rest(s, p, acc).Fail?
    ensures s[0] >= 128 ==>
      DecodeVarint32Rest(s, p, acc).Fail? || DecodeVarint32Rest(s, p, acc) == DecodeVarint32Rest(s[1..], p + 7, acc)
  {
    assert (p + 7) % 256 == p + 7;
  }

  lemma {:induction false} RejectsAbove(u: nat, p: nat, acc: nat, rest: bytes)
    requires p in {35, 42, 49, 56} && 1 <= u < Pow2(63 - p)
    ensures DecodeVarint32Rest(EncodeVarint(u) + rest, p, acc).Fail?
    decreases 56 - p
  {
    HighByte(EncodeVarint(u) + rest, p, acc);
    if u < 128 {
      assert EncodeVarint(u) + rest == [u] + rest;
    } else {
      EncodeVarintUnfold(u, rest);
      StillAbove(u, p);
      RejectsAbove(u / 128, p + 7, acc, rest);
    }
  }

  lemma StillAbove(u: nat, p: nat)
    requires p in {35, 42, 49, 56} && 128 <= u < Pow2(63 - p)
    ensures p < 56 && 1 <= u / 128 < Pow2(56 - p)
  {
    assert Pow2(7) == 128;
    Pow2Add(56 - p, 7);
  }

  lemma {:induction false} RejectsFrom(u: nat, p: nat, acc: nat, rest: bytes)
    requires p in {7, 14, 21, 28} && Pow2(32 - p) <= u < Pow2(63 - p)
    ensures DecodeVarint32Rest(EncodeVarint(u) + rest, p, acc).Fail?
    decreases 28 - p
  {
    Powers();
    var s := EncodeVarint(u) + rest;
    var acc' := Or(acc, Low(Shl(s[0] % 128, p), 32));
    if u < 128 {
      assert s == [u] + rest && p == 28;
    } else {
      EncodeVarintUnfold(u, rest);
      Pow2Add(7, 56 - p);
      assert Pow2(7) == 128;
      if p == 28 {
        RejectsAbove(u / 128, 35, acc', rest);
      } else {
        Pow2Add(7, 25 - p);
        RejectsFrom(u / 128, p + 7, acc', rest);
      }
    }
  }

  /** The encodings of 2^32 .. 2^63 - 1 are reported as overflow. */
  lemma {:induction false} Varint32Overflows(v: nat, rest: bytes)
    requires TWO_32 <= v < 0x8000_0000_0000_0000
    ensures DecodeVarint32(EncodeVarint(v) + rest).Fail?
  {
    AboveWord(v);
    FirstGroup(v, rest);
    RejectsFrom(v / 128, 7, v % 128, rest);
  }

  lemma AboveWord(v: nat)
    requires TWO_32 <= v < 0x8000_0000_0000_0000
    ensures v >= 128 && Pow2(25) <= v / 128 < Pow2(56)
  {
    Powers();
    Pow2Add(7, 50);
    assert Pow2(57) == 2 * Pow2(56);
  }

  // ---- Exactly what the 32-bit decoder accepts ---------------------------

  /** The groups below bit 35, each followed by another. */
  lemma {:induction false} ThroughGroup(v: nat, p: nat, acc: nat, rest: bytes)
    requires p in {7, 14, 21, 28} && acc < Pow2(p) && v >= 128
    ensures DecodeVarint32Rest(EncodeVarint(v) + rest, p, acc)
      == DecodeVarint32Rest(EncodeVarint(v / 128) + rest, p + 7,
                            acc + (if p == 28 then v % 128 % 16 else v % 128) * Pow2(p))
    ensures p < 28 ==> acc + (v % 128) * Pow2(p) < Pow2(p + 7)
  {
    hide DecodeVarint32Rest, EncodeVarint, Pow2, Or, Low, Shl;
    var g := v % 128;
    EncodeVarintUnfold(v, rest);
    ContinuationGroup(EncodeVarint(v) + rest, g, p, acc);
    OrShifted(acc, g, p);
    var _ := AddGroup(acc, g, p);
  }

  lemma {:induction false} LowGroups(u: nat, rest: bytes)
    requires 0x8_0000_0000 <= u < TWO_64
    ensures DecodeVarint32(EncodeVarint(u) + rest)
      == DecodeVarint32Rest(EncodeVarint(u / 0x8_0000_0000) + rest, 35, u % 0x1_0000_0000)
  {
    hide DecodeVarint32, DecodeVarint32Rest, EncodeVarint, Pow2;
    var v, w, x, y := u / 128, u / 128 / 128, u / 128 / 128 / 128, u / 128 / 128 / 128 / 128;
    HighPart(u);
    Pow2Table();
    FirstGroup(u, rest);
    var a := u % 128;
    ThroughGroup(v, 7, a, rest);
    var b := a + (v % 128) * 0x80;
    ThroughGroup(w, 14, b, rest);
    var c := b + (w % 128) * 0x4000;
    ThroughGroup(x, 21, c, rest);
    var d := c + (x % 128) * 0x20_0000;
    ThroughGroup(y, 28, d, rest);
    LowSum(u);
  }

  lemma HighPart(u: nat)
    requires u >= 0x8_0000_0000
    ensures u / 128 / 128 / 128 / 128 / 128 == u / 0x8_0000_0000
    ensures u >= 128 && u / 128 >= 128 && u / 128 / 128 >= 128 && u / 128 / 128 / 128 >= 128
    ensures u / 128 / 128 / 128 / 128 >= 128
  {}

  lemma LowSum(u: nat)
    ensures u % 0x1_0000_0000
      == u % 128 + (u / 128 % 128) * 0x80 + (u / 128 / 128 % 128) * 0x4000 + (u / 128 / 128 / 128 % 128) * 0x20_0000
         + (u / 128 / 128 / 128 / 128 % 128 % 16) * 0x1000_0000
  {}

  /** A group of zeros or of ones. */
  predicate Flat(g: nat) {
    g == 0 || g == 127
  }

  lemma {:induction false} HighGroup1(v: nat, p: nat, acc: nat, rest: bytes)
    requires p in {35, 42, 49, 56} && v >= 128
    ensures DecodeVarint32Rest(EncodeVarint(v) + rest, p, acc)
      == if v % 128 == 0 || (v % 128 == 127 && acc / 0x8000_0000 != 0)
         then DecodeVarint32Rest(EncodeVarint(v / 128) + rest, p + 7, acc) else Fail
  {
    EncodeVarintUnfold(v, rest);
    assert (p + 7) % 256 == p + 7;
  }

  /** A number with the top bit is accepted exactly when bit 31 is set as well and each group
      above bit 35 is of zeros or of ones: bits 32 to 34 do not matter. */
  lemma {:induction false} TopBitAccepted(u: nat, rest: bytes)
    requires 0x8000_0000_0000_0000 <= u < TWO_64
    ensures DecodeVarint32(EncodeVarint(u) + rest).Done? <==>
      && u / 0x8000_0000 % 2 == 1
      && Flat(u / 0x8_0000_0000 % 128) && Flat(u / 0x400_0000_0000 % 128)
      && Flat(u / 0x2_0000_0000_0000 % 128) && Flat(u / 0x100_0000_0000_0000 % 128)
  {
    hide DecodeVarint32, DecodeVarint32Rest, EncodeVarint;
    var v, acc := u / 0x8_0000_0000, u % 0x1_0000_0000;
    LowGroups(u, rest);
    TopParts(u);
    HighGroup1(v, 35, acc, rest);
    HighGroup1(v / 128, 42, acc, rest);
    HighGroup1(v / 128 / 128, 49, acc, rest);
    HighGroup1(v / 128 / 128 / 128, 56, acc, rest);
    LastOne(acc, rest);
  }

  lemma TopParts(u: nat)
    requires 0x8000_0000_0000_0000 <= u < TWO_64
    ensures var v := u / 0x8_0000_0000;
      && v / 128 == u / 0x400_0000_0000 && v / 128 / 128 == u / 0x2_0000_0000_0000
      && v / 128 / 128 / 128 == u / 0x100_0000_0000_0000 && v / 128 / 128 / 128 / 128 == 1
      && v >= 128 && v / 128 >= 128 && v / 128 / 128 >= 128 && v / 128 / 128 / 128 >= 128
    ensures u % 0x1_0000_0000 / 0x8000_0000 == u / 0x8000_0000 % 2
  {}

  lemma {:induction false} LastOne(acc: nat, rest: bytes)
    ensures DecodeVarint32Rest(EncodeVarint(1) + rest, 63, acc).Done? <==> acc / 0x8000_0000 != 0
  {
    assert EncodeVarint(1) + rest == [1] + rest && ([1] + rest)[1..] == rest;
  }

  /** The 32-bit decoder on every 64-bit number as the encoder writes it: it accepts the
      numbers of 32 bits and those that look sign-extended, and gives the low half. */
  lemma {:induction false} Varint32Exactly(u: nat, rest: bytes)
    requires u < TWO_64
    ensures DecodeVarint32(EncodeVarint(u) + rest)
      == if u < 0x1_0000_0000
           || (&& u >= 0x8000_0000_0000_0000 && u / 0x8000_0000 % 2 == 1
               && Flat(u / 0x8_0000_0000 % 128) && Flat(u / 0x400_0000_0000 % 128)
               && Flat(u / 0x2_0000_0000_0000 % 128) && Flat(u / 0x100_0000_0000_0000 % 128))
         then Done(u % 0x1_0000_0000, rest) else Fail
  {
    if u < TWO_32 {
      Varint32RoundTrip(u, rest);
    } else if u < 0x8000_0000_0000_0000 {
      Varint32Overflows(u, rest);
    } else {
      TopBitAccepted(u, rest);
      if DecodeVarint32(EncodeVarint(u) + rest).Done? { ReadsGroups(u, rest); }
    }
  }
}
