module Bytes {
  /** Addresses as sequences of bytes, most significant byte first, and the numbers they stand for. */

  import opened Bits

  type Octet = x: nat | x < 256

  function Value(x: seq<Octet>): nat {
    if x == [] then 0 else Value(x[..|x| - 1]) * 256 + x[|x| - 1]
  }

  lemma {:induction false} ValueBound(x: seq<Octet>)
    ensures Value(x) < Pow2(8 * |x|)
  {
    if x != [] {
      ValueBound(x[..|x| - 1]);
      Pow2Add(8 * (|x| - 1), 8);
      Pow2Of8();
    }
  }

  lemma Pow2Of8()
    ensures Pow2(8) == 256
  {
    assert Pow2(4) == 16;
  }

  lemma {:induction false} Pow2Add(a: nat, b: nat)
    ensures Pow2(a + b) == Pow2(a) * Pow2(b)
    decreases b
  {
    if b > 0 {
      Pow2Add(a, b - 1);
      assert Pow2(a + b) == 2 * Pow2(a + (b - 1));
      Double(Pow2(b - 1), Pow2(a));
    }
  }

  /** Addresses of one length are equal when their numbers are. */
  lemma {:induction false} ValueInjective(x: seq<Octet>, y: seq<Octet>)
    requires |x| == |y| && Value(x) == Value(y)
    ensures x == y
  {
    if x != [] {
      var n := |x| - 1;
      ValueInjective(x[..n], y[..n]);
      assert x == x[..n] + [x[n]] && y == y[..n] + [y[n]];
    }
  }

  /** Of the low `h` bits of an address of `n` bytes, how many fall into byte `i`. */
  function HostBits(h: nat, n: nat, i: nat): (k: nat)
    requires i < n
    ensures k <= 8
  {
    var z := h - 8 * (n - 1 - i);
    if z < 0 then 0 else if z > 8 then 8 else z
  }

  /** `a` and `b` have the same bits above bit `k`. */
  predicate SamePrefix(a: nat, b: nat, k: nat) { a / Pow2(k) == b / Pow2(k) }

  ghost predicate SameBytePrefixes(x: seq<Octet>, y: seq<Octet>, h: nat)
    requires |x| == |y|
  {
    forall i :: 0 <= i < |x| ==> SamePrefix(x[i], y[i], HostBits(h, |x|, i))
  }

  lemma DropByte(x: nat, a: Octet, h: nat)
    requires h >= 8
    ensures (x * 256 + a) / Pow2(h) == x / Pow2(h - 8)
  {
    var p := Pow2(h - 8);
    Pow2Add(h - 8, 8);
    Pow2Of8();
    var q, r := x / p, x % p;
    assert (256 * p) * q == 256 * (p * q);
    DivModUnique(x * 256 + a, 256 * p, q, 256 * r + a);
  }

  lemma KeepByte(x: nat, a: Octet, h: nat)
    requires h <= 8
    ensures (x * 256 + a) / Pow2(h) == Pow2(8 - h) * x + a / Pow2(h)
    ensures a / Pow2(h) < Pow2(8 - h)
  {
    hide Pow2;
    Pow2Add(h, 8 - h);
    Pow2Of8();
    KeepQuotient(x, a, Pow2(h), Pow2(8 - h));
  }

  lemma KeepQuotient(x: nat, a: Octet, d: nat, e: nat)
    requires d > 0 && d * e == 256
    ensures (x * 256 + a) / d == e * x + a / d && a / d < e
  {
    QuotientBelow(a, d, e);
    AddProducts(d, e, x, a / d);
    DivModUnique(x * 256 + a, d, e * x + a / d, a % d);
  }

  lemma AddProducts(d: nat, e: nat, x: nat, q: nat)
    ensures d * (e * x + q) == (d * e) * x + d * q
  {
  }

  lemma QuotientBelow(a: nat, d: nat, e: nat)
    requires d > 0 && a < d * e
    ensures a / d < e
  {
    if a / d >= e { MulMonotone(d, e, a / d); }
  }

  lemma PrefixStep(x: nat, a: Octet, y: nat, b: Octet, h: nat)
    ensures SamePrefix(x * 256 + a, y * 256 + b, h) <==>
            SamePrefix(x, y, if h <= 8 then 0 else h - 8) && SamePrefix(a, b, if h <= 8 then h else 8)
  {
    Pow2Of8();
    if h > 8 {
      DropByte(x, a, h);
      DropByte(y, b, h);
    } else {
      KeepByte(x, a, h);
      KeepByte(y, b, h);
      if SamePrefix(x * 256 + a, y * 256 + b, h) {
        QuotientIsUnique(Pow2(8 - h), x, a / Pow2(h), y, b / Pow2(h));
      }
    }
  }

  /** Two addresses share all but the low `h` bits exactly when their bytes do, each of its own. */
  lemma {:induction false} PrefixByBytes(x: seq<Octet>, y: seq<Octet>, h: nat)
    requires |x| == |y| && h <= 8 * |x|
    ensures SamePrefix(Value(x), Value(y), h) <==> SameBytePrefixes(x, y, h)
  {
    hide SamePrefix;
    if x == [] {
      SelfPrefix(0, h);
    } else {
      var n := |x| - 1;
      var h' := if h <= 8 then 0 else h - 8;
      PrefixByBytes(x[..n], y[..n], h');
      PrefixStep(Value(x[..n]), x[n], Value(y[..n]), y[n], h);
      LastBytePrefix(x, y, h);
    }
  }

  lemma SelfPrefix(a: nat, h: nat)
    ensures SamePrefix(a, a, h)
  {
  }

  lemma LastBytePrefix(x: seq<Octet>, y: seq<Octet>, h: nat)
    requires |x| == |y| > 0
    ensures var n := |x| - 1;
            SameBytePrefixes(x, y, h) <==>
            SameBytePrefixes(x[..n], y[..n], if h <= 8 then 0 else h - 8)
            && SamePrefix(x[n], y[n], if h <= 8 then h else 8)
  {
    hide SamePrefix;
    var n := |x| - 1;
    var h' := if h <= 8 then 0 else h - 8;
    forall i | 0 <= i < n
      ensures SamePrefix(x[i], y[i], HostBits(h, |x|, i)) <==> SamePrefix(x[..n][i], y[..n][i], HostBits(h', n, i))
    {
    }
    if SameBytePrefixes(x[..n], y[..n], h') && SamePrefix(x[n], y[n], HostBits(h, |x|, n)) {
      forall i | 0 <= i < |x| ensures SamePrefix(x[i], y[i], HostBits(h, |x|, i)) {
        if i < n { assert SamePrefix(x[..n][i], y[..n][i], HostBits(h', n, i)); }
      }
    }
  }
}
