/** The required-field bitmap of pb_decode_noinit: two 32-bit words that hold a
    set of indices, and the test that all of the first n are there. */
module PbRequired {
  import opened Bits
  import opened PbVarint
  import opened PbTypes
  import PbIterator

  /** The two 32-bit words of fields_seen hold exactly the set of indices. */
  ghost predicate Holds(words: array<nat>, seen: set<nat>)
    reads words
  {
    && words.Length == 2 && words[0] < TWO_32 && words[1] < TWO_32
    && (forall i :: i in seen ==> i < PB_MAX_REQUIRED_FIELDS)
    && forall i: nat :: i < PB_MAX_REQUIRED_FIELDS ==> (Bit(words[i / 32], i % 32) <==> i in seen)
  }

  method MarkSeen(words: array<nat>, i: nat, ghost seen: set<nat>)
    requires Holds(words, seen) && i < PB_MAX_REQUIRED_FIELDS
    modifies words
    ensures Holds(words, seen + {i})
  {
    var w := i / 32;
    OneBitBound(words[w], i % 32);
    forall j: nat ensures Bit(Or(words[w], Shl(1, i % 32)), j) == (Bit(words[w], j) || j == i % 32) {
      OneBit(words[w], i % 32, j);
    }
    words[w] := Or(words[w], Shl(1, i % 32));
  }

  lemma {:induction false} Pow2Less(a: nat, b: nat)
    requires a < b
    ensures Pow2(a) < Pow2(b)
    decreases b
  {
    if a < b - 1 { Pow2Less(a, b - 1); }
  }

  /** Or-ing in 1 << b sets bit b and no other. */
  lemma {:induction false} OneBit(n: nat, b: nat, j: nat)
    ensures Bit(Or(n, Shl(1, b)), j) == (Bit(n, j) || j == b)
  {
    OrBit(n, Shl(1, b), j);
    ShlBit(1, b, j);
    if j > b { BitZero(j - b - 1); }
  }

  lemma {:induction false} OneBitBound(n: nat, b: nat)
    requires n < TWO_32 && b < 32
    ensures Or(n, Shl(1, b)) < TWO_32
  {
    assert Pow2(32) == TWO_32 by { PowersOfTwo(); }
    ShlValue(1, b);
    Pow2Less(b, 32);
    OrBound(n, Shl(1, b), 32);
  }

  /** allbits >> (32 - r) has the low r bits set. */
  lemma ShiftedOnes(r: nat)
    requires r <= 32
    ensures (TWO_32 - 1) / Pow2(32 - r) == Pow2(r) - 1 < TWO_32
  {
    assert Pow2(32) == TWO_32 by { PowersOfTwo(); }
    Pow2Add(r, 32 - r);
    var p, q := Pow2(r), Pow2(32 - r);
    Distribute(p, q);
    DivModUnique(TWO_32 - 1, q, p - 1, q - 1);
    if r < 32 { Pow2Less(r, 32); }
  }

  lemma Distribute(p: int, q: int)
    ensures p * q - 1 == (p - 1) * q + (q - 1)
  {}

  ghost predicate AllSet(word: nat, r: nat) {
    forall i: nat :: i < r ==> Bit(word, i)
  }

  /** Among words with nothing above bit r, only that one has all the low bits set. */
  lemma {:induction false} AllBits(word: nat, r: nat)
    requires r <= 32 && word < TWO_32 && forall i: nat :: r <= i < 32 ==> !Bit(word, i)
    ensures word == (TWO_32 - 1) / Pow2(32 - r) <==> AllSet(word, r)
  {
    ShiftedOnes(r);
    var ones := Pow2(r) - 1;
    if word == ones {
      forall i: nat | i < r ensures Bit(word, i) { OnesBit(r, i); }
    }
    if AllSet(word, r) {
      forall i: nat | i < 32 ensures Bit(word, i) == Bit(ones, i) { OnesBit(r, i); }
      assert Pow2(32) == TWO_32 by { PowersOfTwo(); }
      SameBits(word, ones, 32);
    }
  }

  /** The check of whole words and of the remaining bits. */
  method CheckSeen(words: array<nat>, n: nat, ghost seen: set<nat>) returns (ok: bool)
    requires Holds(words, seen) && n <= PB_MAX_REQUIRED_FIELDS && forall i :: i in seen ==> i < n
    ensures ok <==> forall i: nat :: i < n ==> i in seen
  {
    var i := 0;
    while i < n / 32
      invariant i <= n / 32 && forall j: nat :: j < 32 * i ==> j in seen
    {
      WordSeen(words, i, 32, seen);
      if words[i] != TWO_32 - 1 { return false; }
      i := i + 1;
    }
    if n % 32 != 0 {
      WordSeen(words, i, n % 32, seen);
      if words[i] != (TWO_32 - 1) / Pow2(32 - n % 32) { return false; }
    }
    return true;
  }

  lemma WordSeen(words: array<nat>, w: nat, r: nat, seen: set<nat>)
    requires Holds(words, seen) && w < 2 && r <= 32
    requires r == 32 || forall i :: i in seen ==> i < 32 * w + r
    ensures words[w] == (TWO_32 - 1) / Pow2(32 - r) <==> forall j: nat :: 32 * w <= j < 32 * w + r ==> j in seen
  {
    var word := words[w];
    forall i: nat | i < 32
      ensures Bit(word, i) <==> 32 * w + i in seen
    {
      assert (32 * w + i) / 32 == w && (32 * w + i) % 32 == i;
    }
    AllBits(word, r);
    if AllSet(word, r) {
      forall j: nat | 32 * w <= j < 32 * w + r ensures j in seen {
        var i := j - 32 * w;
        assert Bit(word, i);
      }
    } else {
      var i: nat :| i < r && !Bit(word, i);
      assert 32 * w + i !in seen;
    }
  }

  /** Seeks to the end of the table to find how many required fields it has. */
  method CountRequired(iter: PbIterator.FieldIter) returns (count: nat)
    requires iter.Valid()
    modifies iter
    ensures count == RequiredIndex(iter.fields, |iter.fields|)
  {
    count := 0;
    var lastRequired := false;
    var more := true;
    while more
      invariant iter.Valid()
      invariant !more && iter.fields != [] ==>
        var n := |iter.fields| - 1;
        count == RequiredIndex(iter.fields, n) && lastRequired == iter.fields[n].h.Required?
      invariant iter.fields == [] ==> count == 0
      decreases if more then |iter.fields| - iter.pos + 1 else 0
    {
      count := iter.requiredFieldIndex;
      lastRequired := iter.fields != [] && iter.fields[iter.pos].h.Required?;
      more := iter.Next();
    }
    if lastRequired && iter.fields != [] { count := count + 1; }
  }
}
