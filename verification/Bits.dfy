/** Bit operations on small naturals. */
module Bits {
  function Pow2(k: nat): (p: nat)
    ensures p > 0
    decreases k
  {
    if k == 0 then 1 else 2 * Pow2(k - 1)
  }

  function And(a: nat, b: nat): (r: nat)
    ensures r <= a && r <= b
    decreases a
  {
    if a == 0 then 0
    else (if a % 2 == 1 && b % 2 == 1 then 1 else 0) + 2 * And(a / 2, b / 2)
  }

  predicate Bit(a: nat, k: nat)
    decreases k
  {
    if k == 0 then a % 2 == 1 else Bit(a / 2, k - 1)
  }

  /** `a` with bit `k` inverted. */
  function Flip(a: nat, k: nat): nat
    decreases k
  {
    if k == 0 then (if a % 2 == 0 then a + 1 else a - 1) else a % 2 + 2 * Flip(a / 2, k - 1)
  }

  lemma {:induction false} AndZero(a: nat)
    ensures And(a, 0) == 0
    decreases a
  {
    if a != 0 { AndZero(a / 2); }
  }

  lemma {:induction false} AndPow2(a: nat, k: nat)
    ensures And(a, Pow2(k)) != 0 <==> Bit(a, k)
    decreases k
  {
    if a == 0 {
      ZeroHasNoBit(k);
    } else if k == 0 {
      AndZero(a / 2);
    } else {
      AndPow2(a / 2, k - 1);
    }
  }

  lemma {:induction false} AndBit(a: nat, b: nat, k: nat)
    ensures Bit(And(a, b), k) <==> Bit(a, k) && Bit(b, k)
    decreases k
  {
    if a == 0 {
      ZeroHasNoBit(k);
    } else if k > 0 {
      AndBit(a / 2, b / 2, k - 1);
    }
  }

  /** The bits of a complement in `n` bits. */
  lemma {:induction false} ComplementBit(a: nat, n: nat, k: nat)
    requires a < Pow2(n) && k < n
    ensures Bit(Pow2(n) - 1 - a, k) <==> !Bit(a, k)
    decreases k
  {
    if k > 0 {
      assert (Pow2(n) - 1 - a) / 2 == Pow2(n - 1) - 1 - a / 2;
      ComplementBit(a / 2, n - 1, k - 1);
    }
  }

  lemma {:induction false} ZeroHasNoBit(k: nat)
    ensures !Bit(0, k)
    decreases k
  {
    if k > 0 { ZeroHasNoBit(k - 1); }
  }

  /** `u` and `v` agree on every bit from `k` up, and below on the bits of `mask`. */
  predicate Agree(u: nat, v: nat, mask: nat, k: nat)
    decreases k
  {
    if k == 0 then u == v else (mask % 2 == 1 ==> u % 2 == v % 2) && Agree(u / 2, v / 2, mask / 2, k - 1)
  }

  lemma {:induction false} AgreeIsAnd(u: nat, v: nat, mask: nat, k: nat)
    requires u < Pow2(k) && v < Pow2(k)
    ensures Agree(u, v, mask, k) <==> And(u, mask) == And(v, mask)
    decreases k
  {
    if k > 0 {
      AgreeIsAnd(u / 2, v / 2, mask / 2, k - 1);
      AndParts(u, mask);
      AndParts(v, mask);
    }
  }

  lemma AndParts(a: nat, b: nat)
    ensures And(a, b) / 2 == And(a / 2, b / 2)
    ensures And(a, b) % 2 == if a % 2 == 1 && b % 2 == 1 then 1 else 0
  {
  }

  /** Giving up one more bit: agree as before, or after inverting that bit if it is not masked. */
  lemma {:induction false} AgreeStep(u: nat, v: nat, mask: nat, k: nat)
    ensures Agree(u, v, mask, k + 1) <==>
            Agree(u, v, mask, k) || (!Bit(mask, k) && Agree(u, Flip(v, k), mask, k))
    decreases k
  {
    if k == 0 {
      assert Agree(u, v, mask, 1) <==> (mask % 2 == 1 ==> u % 2 == v % 2) && Agree(u / 2, v / 2, mask / 2, 0);
    } else {
      AgreeStep(u / 2, v / 2, mask / 2, k - 1);
    }
  }

  /** In the first half of a chunk pair of size `2 ^ k` bit `k` is clear; the other half has it set. */
  lemma {:induction false} FlipPair(m: nat, j: nat, k: nat)
    requires j < Pow2(k)
    ensures Flip(Pow2(k + 1) * m + j, k) == Pow2(k + 1) * m + j + Pow2(k)
    ensures Flip(Pow2(k + 1) * m + j + Pow2(k), k) == Pow2(k + 1) * m + j
    decreases k
  {
    hide Flip;
    if k == 0 {
      FlipLow(2 * m + j);
      FlipLow(2 * m + j + 1);
      assert Pow2(0) == 1 && Pow2(1) == 2;
    } else {
      Double(Pow2(k), m);
      FlipPair(m, j / 2, k - 1);
      HalfPair(Pow2(k) * m, j, k);
      FlipHigh(Pow2(k + 1) * m + j, k);
      FlipHigh(Pow2(k + 1) * m + j + Pow2(k), k);
    }
  }

  lemma FlipLow(a: nat)
    ensures Flip(a, 0) == if a % 2 == 0 then a + 1 else a - 1
  {
  }

  lemma FlipHigh(a: nat, k: nat)
    requires k > 0
    ensures Flip(a, k) == a % 2 + 2 * Flip(a / 2, k - 1)
  {
  }

  lemma Double(p: nat, m: nat)
    ensures (2 * p) * m == 2 * (p * m)
  {
  }

  lemma HalfPair(b: nat, j: nat, k: nat)
    requires k > 0
    ensures (2 * b + j) / 2 == b + j / 2 && (2 * b + j) % 2 == j % 2
    ensures (2 * b + j + Pow2(k)) / 2 == b + j / 2 + Pow2(k - 1) && (2 * b + j + Pow2(k)) % 2 == j % 2
  {
  }

  /** Masking off the low `k` bits rounds down to a multiple of `2 ^ k`. */
  lemma {:induction false} AndHighBits(a: nat, k: nat, n: nat)
    requires k <= n && a < Pow2(n)
    ensures Pow2(k) <= Pow2(n)
    ensures And(a, Pow2(n) - Pow2(k)) == a - a % Pow2(k)
    decreases n
  {
    hide And;
    if k == 0 {
      AndAllOnes(a, n);
    } else {
      AndHighBits(a / 2, k - 1, n - 1);
      HalfMod(a, Pow2(k - 1));
      AndEven(a, Pow2(n - 1) - Pow2(k - 1));
    }
  }

  lemma {:induction false} AndAllOnes(a: nat, n: nat)
    requires a < Pow2(n)
    ensures And(a, Pow2(n) - 1) == a
    decreases n
  {
    if n > 0 {
      AndAllOnes(a / 2, n - 1);
      AndParts(a, Pow2(n) - 1);
    }
  }

  lemma AndEven(a: nat, b: nat)
    ensures And(a, 2 * b) == 2 * And(a / 2, b)
  {
  }

  lemma HalfMod(a: nat, p: nat)
    requires p > 0
    ensures a % (2 * p) == 2 * ((a / 2) % p) + a % 2
  {
    var q := (a / 2) / p;
    var r := (a / 2) % p;
    assert a / 2 == p * q + r;
    assert (2 * p) * q == 2 * (p * q);
    DivModUnique(a, 2 * p, q, 2 * r + a % 2);
  }

  lemma MulAtLeast(d: nat, k: nat)
    requires k > 0
    ensures d * k >= d
  {
    assert d * k == d + d * (k - 1);
  }

  lemma MulMonotone(d: nat, x: nat, y: nat)
    requires x <= y
    ensures d * x <= d * y
  {
    Distribute(d, y, x);
    if x < y { MulAtLeast(d, y - x); }
  }

  lemma QuotientIsUnique(d: nat, q1: nat, r1: nat, q2: nat, r2: nat)
    requires d * q1 + r1 == d * q2 + r2 && r1 < d && r2 < d
    ensures q1 == q2 && r1 == r2
  {
    Distribute(d, q1, q2);
    if q1 > q2 { MulAtLeast(d, q1 - q2); } else if q1 < q2 { MulAtLeast(d, q2 - q1); }
  }

  lemma Distribute(d: nat, x: nat, y: nat)
    ensures d * (x - y) == d * x - d * y && d * (y - x) == d * y - d * x
  {
  }

  lemma DivModUnique(a: nat, d: nat, q: nat, r: nat)
    requires d > 0 && a == d * q + r && r < d
    ensures a / d == q && a % d == r
  {
    QuotientIsUnique(d, q, r, a / d, a % d);
  }

  /** Two numbers keep the same high bits exactly when they are in the same block of size `2 ^ k`. */
  lemma SameHighBits(a: nat, b: nat, k: nat, n: nat)
    requires k <= n && a < Pow2(n) && b < Pow2(n) && Pow2(k) <= Pow2(n)
    ensures And(a, Pow2(n) - Pow2(k)) == And(b, Pow2(n) - Pow2(k)) <==> a / Pow2(k) == b / Pow2(k)
  {
    AndHighBits(a, k, n);
    AndHighBits(b, k, n);
    BlockStart(a, b, Pow2(k));
  }

  lemma BlockStart(a: nat, b: nat, p: nat)
    requires p > 0
    ensures a - a % p == b - b % p <==> a / p == b / p
  {
    if a - a % p == b - b % p { QuotientIsUnique(p, a / p, 0, b / p, 0); }
  }
}
