/** IPv6 blocks: an address, a netmask, and the addresses under it in order. */
module IPv6Netmask {
  import opened Bits
  import opened Bytes

  type Address6 = x: seq<Octet> | |x| == 16 witness seq(16, _ => 0 as Octet)

  // ----- counting

  /** The address after `x`, wrapping around. */
  function Inc(x: seq<Octet>): (y: seq<Octet>)
    ensures |y| == |x|
  {
    if x == [] then []
    else
      var n := |x| - 1;
      if x[n] < 255 then x[..n] + [x[n] + 1] else Inc(x[..n]) + [0]
  }

  lemma {:induction false} IncCounts(x: seq<Octet>)
    ensures Value(Inc(x)) == if Value(x) + 1 == Pow2(8 * |x|) then 0 else Value(x) + 1
  {
    if x != [] {
      var n := |x| - 1;
      var y := Inc(x);
      IncCounts(x[..n]);
      Pow2Add(8 * n, 8);
      Pow2Of8();
      ValueBound(x[..n]);
      assert y[..n] == if x[n] < 255 then x[..n] else Inc(x[..n]);
    }
  }

  lemma {:induction false} ValueMonotone(x: seq<Octet>, y: seq<Octet>)
    requires |x| == |y| && forall i :: 0 <= i < |x| ==> x[i] <= y[i]
    ensures Value(x) <= Value(y)
  {
    if x != [] { ValueMonotone(x[..|x| - 1], y[..|x| - 1]); }
  }

  // ----- masks

  function Or(a: nat, b: nat): nat
    decreases a + b
  {
    if a == 0 then b else if b == 0 then a
    else (if a % 2 == 1 || b % 2 == 1 then 1 else 0) + 2 * Or(a / 2, b / 2)
  }

  lemma {:induction false} OrBit(a: nat, b: nat, k: nat)
    ensures Bit(Or(a, b), k) <==> Bit(a, k) || Bit(b, k)
    decreases k
  {
    if a == 0 || b == 0 {
      ZeroHasNoBit(k);
    } else if k > 0 {
      OrBit(a / 2, b / 2, k - 1);
    }
  }

  /** Without a common bit, `Or` adds. */
  lemma {:induction false} OrLow(a: nat, r: nat, k: nat)
    requires a % Pow2(k) == 0 && r < Pow2(k)
    ensures Or(a, r) == a + r
    decreases k
  {
    if k > 0 {
      HalfMod(a, Pow2(k - 1));
      OrLow(a / 2, r / 2, k - 1);
    }
  }

  /** `k` low bits of the byte are in the host part. */
  function MaskByte(k: nat): nat
    requires k <= 8
  {
    (0xFF * Pow2(k)) % 0x100
  }

  lemma MaskByteValue(k: nat)
    requires k <= 8
    ensures 0 < Pow2(k) <= 256 && MaskByte(k) == 256 - Pow2(k)
  {
    Pow2Small(k);
    var p := Pow2(k);
    DivModUnique(0xFF * p, 0x100, p - 1, 0x100 - p);
  }

  lemma Pow2Small(k: nat)
    requires k <= 8
    ensures 0 < Pow2(k) <= 256
  {
    Pow2Of8();
    Pow2Add(k, 8 - k);
    MulAtLeast(Pow2(k), Pow2(8 - k));
  }

  /** The byte `(a & mask) | (b & ~mask)`. */
  function MergeByte(a: Octet, mask: Octet, b: Octet): nat { Or(And(a, mask), And(b, 255 - mask)) }

  lemma {:induction false} OrBound(a: nat, b: nat, k: nat)
    requires a < Pow2(k) && b < Pow2(k)
    ensures Or(a, b) < Pow2(k)
    decreases k
  {
    if k > 0 { OrBound(a / 2, b / 2, k - 1); }
  }

  lemma MergeIsByte(a: Octet, mask: Octet, b: Octet)
    ensures MergeByte(a, mask, b) < 256
  {
    Pow2Of8();
    OrBound(And(a, mask), And(b, 255 - mask), 8);
  }

  /** Bit by bit: from `a` where the mask has the bit, and from `b` where not. */
  lemma MergeBit(a: Octet, mask: Octet, b: Octet, k: nat)
    requires k < 8
    ensures Bit(MergeByte(a, mask, b), k) <==> if Bit(mask, k) then Bit(a, k) else Bit(b, k)
  {
    Pow2Of8();
    ComplementBit(mask, 8, k);
    AndBit(a, mask, k);
    AndBit(b, 255 - mask, k);
    OrBit(And(a, mask), And(b, 255 - mask), k);
  }

  predicate Merged(a: Octet, mask: Octet, b: Octet, r: Octet) {
    forall k :: 0 <= k < 8 ==> (Bit(r, k) <==> if Bit(mask, k) then Bit(a, k) else Bit(b, k))
  }

  lemma MergeBits(a: Octet, mask: Octet, b: Octet)
    ensures MergeByte(a, mask, b) < 256 && Merged(a, mask, b, MergeByte(a, mask, b))
  {
    MergeIsByte(a, mask, b);
    forall k | 0 <= k < 8
      ensures Bit(MergeByte(a, mask, b), k) <==> if Bit(mask, k) then Bit(a, k) else Bit(b, k)
    {
      MergeBit(a, mask, b, k);
    }
  }

  lemma MergeZeros(a: Octet, k: nat)
    requires k <= 8
    ensures MaskByte(k) == 256 - Pow2(k) && MergeByte(a, MaskByte(k), 0) == a - a % Pow2(k)
  {
    hide And, Or, Pow2, MaskByte;
    MaskByteValue(k);
    Pow2Of8();
    AndHighBits(a, k, 8);
    AndBelow(0, Pow2(k) - 1);
    OrZero(a - a % Pow2(k));
  }

  lemma OrZero(a: nat)
    ensures Or(a, 0) == a
  {
  }

  lemma AndBelow(a: nat, b: nat)
    ensures a == 0 ==> And(a, b) == 0
  {
  }

  lemma MergeOnes(a: Octet, k: nat)
    requires k <= 8
    ensures MaskByte(k) == 256 - Pow2(k)
    ensures MergeByte(a, MaskByte(k), 255) == a - a % Pow2(k) + (Pow2(k) - 1)
  {
    hide And, Or, Pow2, MaskByte;
    MaskByteValue(k);
    Pow2Of8();
    AndHighBits(a, k, 8);
    AndOnes(Pow2(k) - 1, 8);
    var p := Pow2(k);
    DivModUnique(a - a % p, p, a / p, 0);
    OrLow(a - a % p, p - 1, k);
  }

  lemma {:induction false} AndOnes(b: nat, n: nat)
    requires b < Pow2(n)
    ensures And(Pow2(n) - 1, b) == b
    decreases n
  {
    if n > 0 {
      AndOnes(b / 2, n - 1);
      AndParts(Pow2(n) - 1, b);
    }
  }

  // ----- the two ends of a block

  /** `lo` has the host bits of `a` cleared, `hi` has them set. */
  ghost predicate Ends(a: seq<Octet>, lo: seq<Octet>, hi: seq<Octet>, h: nat) {
    |a| == |lo| == |hi| && forall i :: 0 <= i < |a| ==> ByteEnds(a[i], lo[i], hi[i], HostBits(h, |a|, i))
  }

  ghost predicate ByteEnds(a: Octet, lo: Octet, hi: Octet, k: nat) {
    lo == a - a % Pow2(k) && hi == lo + (Pow2(k) - 1)
  }

  lemma ByteBlock(a: Octet, lo: Octet, hi: Octet, k: nat, x: Octet)
    requires ByteEnds(a, lo, hi, k)
    ensures SamePrefix(lo, a, k) && SamePrefix(hi, a, k)
    ensures SamePrefix(x, a, k) ==> lo <= x <= hi
  {
    var p := Pow2(k);
    DivModUnique(lo, p, a / p, 0);
    DivModUnique(hi, p, a / p, p - 1);
  }

  /** The block from `lo` to `hi` is the set of addresses that share the network part of `a`. */
  lemma BetweenEnds(a: seq<Octet>, lo: seq<Octet>, hi: seq<Octet>, h: nat, x: seq<Octet>)
    requires Ends(a, lo, hi, h) && |x| == |a| && h <= 8 * |a|
    ensures Value(lo) <= Value(x) <= Value(hi) <==> SamePrefix(Value(x), Value(a), h)
  {
    hide SamePrefix, Value, Pow2, ByteEnds;
    forall i | 0 <= i < |a|
      ensures SamePrefix(lo[i], a[i], HostBits(h, |a|, i)) && SamePrefix(hi[i], a[i], HostBits(h, |a|, i))
      ensures SamePrefix(x[i], a[i], HostBits(h, |a|, i)) ==> lo[i] <= x[i] <= hi[i]
    {
      ByteBlock(a[i], lo[i], hi[i], HostBits(h, |a|, i), x[i]);
    }
    PrefixByBytes(x, a, h);
    PrefixByBytes(lo, a, h);
    PrefixByBytes(hi, a, h);
    if SameBytePrefixes(x, a, h) {
      ValueMonotone(lo, x);
      ValueMonotone(x, hi);
    }
    Squeeze(Value(lo), Value(x), Value(hi), Value(a), h);
  }

  lemma Squeeze(lo: nat, x: nat, hi: nat, a: nat, h: nat)
    requires SamePrefix(lo, a, h) && SamePrefix(hi, a, h)
    ensures lo <= x <= hi ==> SamePrefix(x, a, h)
  {
    if lo <= x <= hi {
      DivMonotone(lo, x, Pow2(h));
      DivMonotone(x, hi, Pow2(h));
    }
  }

  lemma DivMonotone(a: nat, b: nat, d: nat)
    requires a <= b && d > 0
    ensures a / d <= b / d
  {
    Distribute(d, b / d + 1, b / d);
    if a / d > b / d { MulMonotone(d, b / d + 1, a / d); }
  }

  /** A block with `h` host bits has `2 ^ h` addresses. */
  lemma {:induction false} BlockSize(a: seq<Octet>, lo: seq<Octet>, hi: seq<Octet>, h: nat)
    requires Ends(a, lo, hi, h) && h <= 8 * |a|
    ensures Value(hi) - Value(lo) == Pow2(h) - 1
  {
    hide Pow2;
    if a == [] {
      Pow2Zero();
    } else {
      var n := |a| - 1;
      var h' := if h <= 8 then 0 else h - 8;
      forall i | 0 <= i < n
        ensures ByteEnds(a[..n][i], lo[..n][i], hi[..n][i], HostBits(h', n, i))
      {
        assert HostBits(h', n, i) == HostBits(h, |a|, i);
        assert ByteEnds(a[i], lo[i], hi[i], HostBits(h, |a|, i));
      }
      BlockSize(a[..n], lo[..n], hi[..n], h');
      assert ByteEnds(a[n], lo[n], hi[n], HostBits(h, |a|, n));
      Pow2Zero();
      Pow2Of8();
      if h > 8 { Pow2Add(h - 8, 8); }
    }
  }

  lemma Pow2Zero()
    ensures Pow2(0) == 1
  {
  }

  // ----- blocks

  class NetBlockIPv6Netmask {
    var start: Address6
    var cur: Address6
    var end: Address6
    var exhausted: bool

    ghost predicate Valid()
      reads this
    {
      exhausted || Value(cur) <= Value(end)
    }

    ghost predicate Remaining(x: Address6)
      reads this
    {
      !exhausted && Value(cur) <= Value(x) <= Value(end)
    }

    /** How many addresses remain. */
    ghost function Left(): nat
      requires Valid()
      reads this
    {
      if exhausted then 0 else Value(end) - Value(cur) + 1
    }

    constructor (a: Address6)
      ensures Valid() && start == a && cur == a && end == a && !exhausted
    {
      start, cur, end, exhausted := a, a, a, false;
    }

    /** The one bits of a netmask: whole bytes first, then the rest of a byte. */
    method MakeNetmask(bits: int) returns (mask: Address6)
      requires bits <= 128
      ensures var h := 128 - if bits < 0 then 0 else bits;
              forall i :: 0 <= i < 16 ==> mask[i] == MaskByte(HostBits(h, 16, i))
    {
      mask := seq(16, _ => 0);
      var left := if bits < 0 then 0 else bits;
      ghost var n := left;
      MaskByteEnds();
      if left == 0 { return; }
      var i := 0;
      while left > 8
        invariant 0 < left && left == n - 8 * i && i < 16
        invariant forall j :: 0 <= j < i ==> mask[j] == 0xFF
        invariant forall j :: i <= j < 16 ==> mask[j] == 0
      {
        mask := mask[i := 0xFF];
        i := i + 1;
        left := left - 8;
      }
      mask := mask[i := MaskByte(8 - left)];
    }

    /** The bytes of `a` under `mask`, and those of `b` outside it. */
    method OrMask(a: Address6, mask: Address6, b: Address6) returns (r: Address6)
      ensures forall i :: 0 <= i < 16 ==> r[i] == MergeByte(a[i], mask[i], b[i]) && Merged(a[i], mask[i], b[i], r[i])
    {
      hide MergeByte, Merged;
      r := a;
      var i := 0;
      while i < 16
        invariant i <= 16
        invariant forall j :: 0 <= j < i ==> r[j] == MergeByte(a[j], mask[j], b[j]) && Merged(a[j], mask[j], b[j], r[j])
        invariant forall j :: i <= j < 16 ==> r[j] == a[j]
      {
        MergeBits(r[i], mask[i], b[i]);
        r := r[i := MergeByte(r[i], mask[i], b[i])];
        i := i + 1;
      }
    }

    /** Widens both ends to the block of the first `bits` bits; a negative number stands for 128,
        more than 128 change nothing. */
    method ApplyNetmask(bits: int)
      modifies this
      ensures bits > 128 ==> start == old(start) && end == old(end) && cur == old(cur) && exhausted == old(exhausted)
      ensures bits <= 128 ==>
                var h := 128 - if bits < 0 then 128 else bits;
                && !exhausted && cur == start
                && Opened(old(start), start, h, 0) && Opened(old(end), end, h, 255)
    {
      hide MaskByte, MergeByte, HostBits;
      if bits > 128 { return; }
      var zeros: Address6, ones: Address6 := seq(16, _ => 0), seq(16, _ => 255);
      exhausted := false;
      var n := if bits < 0 then 128 else bits;
      var mask := MakeNetmask(n);
      start := OrMask(start, mask, zeros);
      end := OrMask(end, mask, ones);
      cur := start;
    }

    /** Emits the current address and moves to the next one, until the end has been emitted. */
    method Next() returns (ok: bool, address: Address6)
      requires Valid()
      modifies this
      ensures Valid() && start == old(start) && end == old(end)
      ensures ok <==> !old(exhausted)
      ensures ok ==> address == old(cur) && old(Remaining(address))
      ensures forall x :: Remaining(x) <==> old(Remaining(x)) && !(ok && x == address)
      ensures ok ==> Left() == old(Left()) - 1 && (!exhausted ==> Value(cur) == Value(address) + 1)
    {
      hide Value;
      if exhausted {
        return false, cur;
      }
      ok, address := true, cur;
      if cur == end { exhausted := true; }
      Increment();
      IncCounts(address);
      ValueBound(end);
      forall x: Address6 | Value(x) == Value(address) ensures x == address {
        ValueInjective(x, address);
      }
    }

    /** Adds one to the last byte, and to the byte before it as long as the result is zero. */
    method Increment()
      modifies this`cur
      ensures cur == Inc(old(cur))
    {
      ghost var was := cur;
      var i := 15;
      assert was[..16] == was;
      while i >= 0
        invariant -1 <= i < 16
        invariant cur[..i + 1] == was[..i + 1]
        invariant Inc(was) == Inc(was[..i + 1]) + cur[i + 1..]
      {
        ghost var tail := cur[i + 1..];
        Carry(was[..i + 1]);
        assert was[..i + 1][..i] == was[..i];
        assert cur[i] == cur[..i + 1][i] == was[..i + 1][i];
        cur := cur[i := (cur[i] as int + 1) % 256];
        Split(cur, was, i, tail);
        if cur[i] > 0 { return; }
        i := i - 1;
      }
    }
  }

  lemma Split(x: Address6, was: Address6, i: nat, tail: seq<Octet>)
    requires i < 16 && x[i + 1..] == tail && forall k :: 0 <= k < i ==> x[k] == was[k]
    ensures x[i..] == [x[i]] + tail && x[..i] == was[..i] && x == was[..i] + [x[i]] + tail
  {
  }

  lemma Carry(x: seq<Octet>)
    requires x != []
    ensures var n := |x| - 1;
            Inc(x) == if x[n] < 255 then x[..n] + [x[n] + 1] else Inc(x[..n]) + [0]
  {
  }

  /** `now` is `a` with its host bits cleared or set, as `fill` says. */
  ghost predicate Opened(a: Address6, now: Address6, h: nat, fill: Octet) {
    forall i :: 0 <= i < 16 ==> now[i] == MergeByte(a[i], MaskByte(HostBits(h, 16, i)), fill)
  }

  lemma MaskByteEnds()
    ensures MaskByte(0) == 0xFF && MaskByte(8) == 0
  {
    MaskByteValue(0);
    MaskByteValue(8);
    Pow2Of8();
  }

  /** The ends that `ApplyNetmask` gives to the block of a single address. */
  lemma OpenedEnds(a: Address6, lo: Address6, hi: Address6, h: nat)
    requires Opened(a, lo, h, 0) && Opened(a, hi, h, 255)
    ensures Ends(a, lo, hi, h)
  {
    hide MergeByte, MaskByte, HostBits, Pow2;
    forall i | 0 <= i < 16 ensures ByteEnds(a[i], lo[i], hi[i], HostBits(h, 16, i)) {
      MergeZeros(a[i], HostBits(h, 16, i));
      MergeOnes(a[i], HostBits(h, 16, i));
    }
  }

  /** The addresses under `bits` bits of `a`, by repeated calls of `Next`: they are those that share
      these bits with `a`, there are `2 ^ (128 - bits)` of them, and each is one more than the last. */
  method Enumerate(a: Address6, bits: int) returns (addresses: seq<Address6>)
    requires bits <= 128
    ensures var h := 128 - if bits < 0 then 128 else bits;
            && |addresses| == Pow2(h)
            && (forall x: Address6 :: x in addresses <==> SamePrefix(Value(x), Value(a), h))
            && (forall i :: 0 <= i < |addresses| ==> Value(addresses[i]) == Value(addresses[0]) + i)
  {
    hide Value, SamePrefix, Pow2, Opened, Ends;
    var block := new NetBlockIPv6Netmask(a);
    block.ApplyNetmask(bits);
    ghost var h := 128 - if bits < 0 then 128 else bits;
    ghost var lo, hi := block.start, block.end;
    OpenedEnds(a, lo, hi, h);
    BlockSize(a, lo, hi, h);
    forall x: Address6 ensures Value(lo) <= Value(x) <= Value(hi) <==> SamePrefix(Value(x), Value(a), h) {
      BetweenEnds(a, lo, hi, h, x);
    }
    addresses := [];
    var ok := true;
    while ok
      invariant block.Valid() && block.end == hi
      invariant |addresses| + block.Left() == Value(hi) - Value(lo) + 1
      invariant !block.exhausted ==> Value(block.cur) == Value(lo) + |addresses|
      invariant !ok ==> block.exhausted
      invariant forall i :: 0 <= i < |addresses| ==> Value(addresses[i]) == Value(lo) + i
      invariant forall x: Address6 :: Value(lo) <= Value(x) <= Value(hi) <==> x in addresses || block.Remaining(x)
      invariant fresh(block)
      decreases ok, block.Left()
    {
      var address: Address6;
      ok, address := block.Next();
      if ok { addresses := addresses + [address]; }
    }
  }
}
