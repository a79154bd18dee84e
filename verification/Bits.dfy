/** Machine words as naturals: bit i of n is Bit(n, i). The bitwise operators
    recurse over the binary digits, and the lemmas say what each does to Bit. */
module Bits {
  function Pow2(k: nat): (p: nat)
    ensures p >= 1
  {
    if k == 0 then 1 else 2 * Pow2(k - 1)
  }

  predicate Bit(n: nat, i: nat) {
    if i == 0 then n % 2 == 1 else Bit(n / 2, i - 1)
  }

  function Or(a: nat, b: nat): nat
    decreases a + b
  {
    if a == 0 then b
    else if b == 0 then a
    else 2 * Or(a / 2, b / 2) + (if a % 2 == 1 || b % 2 == 1 then 1 else 0)
  }

  function And(a: nat, b: nat): nat
    decreases a + b
  {
    if a == 0 || b == 0 then 0
    else 2 * And(a / 2, b / 2) + (if a % 2 == 1 && b % 2 == 1 then 1 else 0)
  }

  function Shl(a: nat, k: nat): nat
    decreases k, a
  {
    if k == 0 then a else Shl(2 * a, k - 1)
  }

  /** The low w bits of n: what is stored when n is assigned to a w-bit word. */
  function Low(n: nat, w: nat): nat
    decreases w, n
  {
    if w == 0 then 0 else 2 * Low(n / 2, w - 1) + n % 2
  }

  lemma {:induction false} BitZero(i: nat)
    ensures !Bit(0, i)
  {
    if i > 0 { BitZero(i - 1); }
  }

  lemma {:induction false} OrHalves(a: nat, b: nat)
    ensures Or(a, b) / 2 == Or(a / 2, b / 2)
    ensures Or(a, b) % 2 == 1 <==> a % 2 == 1 || b % 2 == 1
  {
    if a != 0 && b != 0 {
      var h, r := Or(a / 2, b / 2), if a % 2 == 1 || b % 2 == 1 then 1 else 0;
      assert Or(a, b) == 2 * h + r;
    }
  }

  lemma {:induction false} OrBit(a: nat, b: nat, i: nat)
    ensures Bit(Or(a, b), i) == (Bit(a, i) || Bit(b, i))
    decreases i
  {
    if a == 0 || b == 0 {
      BitZero(i);
    } else {
      OrHalves(a, b);
      if i > 0 { OrBit(a / 2, b / 2, i - 1); }
    }
  }

  lemma {:induction false} AndBit(a: nat, b: nat, i: nat)
    ensures Bit(And(a, b), i) == (Bit(a, i) && Bit(b, i))
    decreases i
  {
    if a == 0 || b == 0 {
      BitZero(i);
    } else if i > 0 {
      assert And(a, b) / 2 == And(a / 2, b / 2);
      AndBit(a / 2, b / 2, i - 1);
    }
  }

  lemma {:induction false} ShlBit(a: nat, k: nat, i: nat)
    ensures Bit(Shl(a, k), i) == (i >= k && Bit(a, i - k))
    decreases k
  {
    if k > 0 {
      ShlBit(2 * a, k - 1, i);
      if i >= k {
        assert (2 * a) / 2 == a;
      } else if i == k - 1 {
        assert !Bit(2 * a, 0);
      }
    }
  }

  lemma {:induction false} LowBit(n: nat, w: nat, i: nat)
    ensures Bit(Low(n, w), i) == (i < w && Bit(n, i))
    decreases w
  {
    if w == 0 {
      BitZero(i);
    } else if i > 0 {
      assert Low(n, w) / 2 == Low(n / 2, w - 1);
      LowBit(n / 2, w - 1, i - 1);
    }
  }

  lemma {:induction false} ShlValue(a: nat, k: nat)
    ensures Shl(a, k) == a * Pow2(k)
    decreases k
  {
    if k > 0 {
      ShlValue(2 * a, k - 1);
      var p := Pow2(k - 1);
      assert 2 * a * p == a * (2 * p);
    }
  }

  lemma {:induction false} LowValue(n: nat, w: nat)
    ensures Low(n, w) == n % Pow2(w)
    decreases w
  {
    if w > 0 {
      LowValue(n / 2, w - 1);
      ModDouble(n, Pow2(w - 1));
    }
  }

  lemma MulMono(a: int, b: int, d: int)
    requires a <= b && 0 <= d
    ensures a * d <= b * d
  {}

  lemma ModDouble(n: nat, p: nat)
    requires p > 0
    ensures n % (2 * p) == 2 * (n / 2 % p) + n % 2
  {
    var h := n / 2;
    var q, r := h / p, h % p;
    assert h == p * q + r;
    assert q * (2 * p) == 2 * (p * q);
    DivModUnique(n, 2 * p, q, 2 * r + n % 2);
  }

  lemma DivModUnique(n: int, d: int, q: int, r: int)
    requires d > 0 && n == q * d + r && 0 <= r < d
    ensures n / d == q && n % d == r
  {
    var q' := n / d;
    assert n == d * q' + n % d;
    if q > q' {
      MulMono(q' + 1, q, d);
    } else if q < q' {
      MulMono(q + 1, q', d);
    }
  }

  lemma {:induction false} Pow2Add(a: nat, b: nat)
    ensures Pow2(a + b) == Pow2(a) * Pow2(b)
    decreases a
  {
    if a > 0 {
      Pow2Add(a - 1, b);
      assert Pow2(a + b) == 2 * (Pow2(a - 1) * Pow2(b));
    }
  }

  /** Or of a low part and a part shifted above it is their sum. */
  lemma {:induction false} OrDisjoint(a: nat, b: nat, k: nat)
    requires a < Pow2(k)
    ensures Or(a, b * Pow2(k)) == a + b * Pow2(k)
    decreases k
  {
    if k == 0 {
      assert a == 0;
    } else if a != 0 && b != 0 {
      var p := Pow2(k - 1);
      assert b * Pow2(k) == 2 * (b * p);
      assert (b * Pow2(k)) / 2 == b * p;
      OrDisjoint(a / 2, b, k - 1);
    }
  }

  /** Two w-bit words with the same bits are the same number. */
  lemma {:induction false} SameBits(a: nat, b: nat, w: nat)
    requires a < Pow2(w) && b < Pow2(w)
    requires forall i: nat :: i < w ==> Bit(a, i) == Bit(b, i)
    ensures a == b
    decreases w
  {
    if w > 0 {
      forall i: nat | i < w - 1
        ensures Bit(a / 2, i) == Bit(b / 2, i)
      {
        assert Bit(a, i + 1) == Bit(b, i + 1);
      }
      SameBits(a / 2, b / 2, w - 1);
      assert Bit(a, 0) == Bit(b, 0);
    }
  }

  lemma {:induction false} OnesBit(w: nat, i: nat)
    ensures Bit(Pow2(w) - 1, i) == (i < w)
    decreases w
  {
    if w == 0 {
      BitZero(i);
    } else {
      assert (Pow2(w) - 1) / 2 == Pow2(w - 1) - 1;
      if i > 0 { OnesBit(w - 1, i - 1); }
    }
  }

  lemma {:induction false} LowBound(n: nat, w: nat)
    ensures Low(n, w) < Pow2(w)
    decreases w
  {
    if w > 0 { LowBound(n / 2, w - 1); }
  }

  lemma {:induction false} LowSmall(n: nat, w: nat)
    requires n < Pow2(w)
    ensures Low(n, w) == n
    decreases w
  {
    if w > 0 { LowSmall(n / 2, w - 1); }
  }

  lemma {:induction false} OrBound(a: nat, b: nat, w: nat)
    requires a < Pow2(w) && b < Pow2(w)
    ensures Or(a, b) < Pow2(w)
    decreases w
  {
    if w > 0 && a != 0 && b != 0 { OrBound(a / 2, b / 2, w - 1); }
  }
}
