/** IPv4 blocks: four sets of octets, closed under a netmask, enumerated, printed and parsed. */
module IPv4Ranges {
  import opened Bits
  import opened Bytes

  /** A bit vector of 256 bits. */
  type OctetSet = s: seq<bool> | |s| == 256 witness seq(256, _ => false)

  // ----- netmasks, one octet at a time

  /** Some octet of `was` agrees with `v` above bit `k`, and below on the bits of `mask`. */
  ghost predicate Reached(was: OctetSet, mask: nat, k: nat, v: nat) {
    exists u :: 0 <= u < 256 && was[u] && Agree(u, v, mask, k)
  }

  /** `now` holds exactly the octets that equal some octet of `was` under `mask`. */
  ghost predicate ClosedUnder(was: OctetSet, now: OctetSet, mask: nat) {
    forall v :: 0 <= v < 256 ==> (now[v] <==> exists u :: 0 <= u < 256 && was[u] && And(u, mask) == And(v, mask))
  }

  ghost predicate Closing(was: OctetSet, now: OctetSet, mask: nat, k: nat) {
    forall v :: 0 <= v < 256 ==> (now[v] <==> Reached(was, mask, k, v))
  }

  /** `now` is `was` after each octet was joined with its pair at bit `k`. */
  ghost predicate Paired(was: OctetSet, now: OctetSet, k: nat) {
    forall v :: 0 <= v < 256 ==>
      0 <= Flip(v, k) < 256 && (now[v] <==> was[v] || was[Flip(v, k)])
  }

  lemma Chunks(k: nat)
    requires k < 8
    ensures Pow2(k + 1) * Pow2(7 - k) == 256
    decreases 7 - k
  {
    if k == 7 {
      assert Pow2(8) == 256 by { assert Pow2(4) == 16; }
    } else {
      Chunks(k + 1);
      assert Pow2(7 - k) == 2 * Pow2(6 - k);
      Double(Pow2(k + 1), Pow2(6 - k));
    }
  }

  lemma ClosingStarts(was: OctetSet, mask: nat)
    ensures Closing(was, was, mask, 0)
  {
    forall v | 0 <= v < 256 ensures was[v] <==> Reached(was, mask, 0, v) {
      if was[v] { assert Agree(v, v, mask, 0); }
    }
  }

  lemma ClosingStep(was: OctetSet, now: OctetSet, next: OctetSet, mask: nat, k: nat)
    requires Closing(was, now, mask, k)
    requires if Bit(mask, k) then next == now else Paired(now, next, k)
    ensures Closing(was, next, mask, k + 1)
  {
    hide Agree, Flip;
    forall v | 0 <= v < 256 ensures next[v] <==> Reached(was, mask, k + 1, v) {
      forall u | 0 <= u < 256
        ensures Agree(u, v, mask, k + 1) <==>
                Agree(u, v, mask, k) || (!Bit(mask, k) && Agree(u, Flip(v, k), mask, k))
      {
        AgreeStep(u, v, mask, k);
      }
      if Reached(was, mask, k + 1, v) {
        var u :| 0 <= u < 256 && was[u] && Agree(u, v, mask, k + 1);
        if Agree(u, v, mask, k) {
          assert Reached(was, mask, k, v);
        } else {
          assert Reached(was, mask, k, Flip(v, k));
        }
      }
    }
  }

  lemma ClosingEnds(was: OctetSet, now: OctetSet, mask: nat)
    requires Closing(was, now, mask, 8)
    ensures ClosedUnder(was, now, mask)
  {
    hide Agree, And;
    assert Pow2(8) == 256 by { assert Pow2(4) == 16; }
    forall v | 0 <= v < 256
      ensures now[v] <==> exists u :: 0 <= u < 256 && was[u] && And(u, mask) == And(v, mask)
    {
      forall u | 0 <= u < 256 ensures Agree(u, v, mask, 8) <==> And(u, mask) == And(v, mask) {
        AgreeIsAnd(u, v, mask, 8);
      }
    }
  }

  ghost predicate Joined(was: OctetSet, now: OctetSet, i: nat, size: nat)
    requires i + 2 * size <= 256
  {
    && (forall j :: i <= j < i + size ==> now[j] == (was[j] || was[j + size]))
    && (forall j :: i + size <= j < i + 2 * size ==> now[j] == (was[j] || was[j - size]))
    && (forall x :: 0 <= x < 256 && !(i <= x < i + 2 * size) ==> now[x] == was[x])
  }

  /** Joins two neighbouring chunks. */
  method JoinChunks(bits: array<bool>, i: nat, size: nat)
    requires bits.Length == 256 && i + 2 * size <= 256
    modifies bits
    ensures Joined(old(bits[..]), bits[..], i, size)
  {
    var j := 0;
    while j < size
      invariant j <= size
      invariant forall x :: i <= x < i + j ==> bits[x] == (old(bits[x]) || old(bits[x + size]))
      invariant forall x :: i + size <= x < i + size + j ==> bits[x] == (old(bits[x]) || old(bits[x - size]))
      invariant forall x :: 0 <= x < 256 && !(i <= x < i + j) && !(i + size <= x < i + size + j)
                  ==> bits[x] == old(bits[x])
    {
      if bits[i + j] {
        bits[i + j + size] := true;
      } else if bits[i + j + size] {
        bits[i + j] := true;
      }
      j := j + 1;
    }
  }

  /** Paired below `i`, unchanged from `i` up. */
  ghost predicate PairedUpTo(was: OctetSet, now: OctetSet, k: nat, i: nat) {
    && (forall v :: 0 <= v < i && v < 256 ==> 0 <= Flip(v, k) < 256 && (now[v] <==> was[v] || was[Flip(v, k)]))
    && (forall v :: i <= v < 256 ==> now[v] == was[v])
  }

  lemma JoinedIsPaired(was: OctetSet, before: OctetSet, now: OctetSet, k: nat, i: nat, p: nat)
    requires i + 2 * p <= 256
    requires forall v :: i <= v < i + p ==> Flip(v, k) == v + p
    requires forall v :: i + p <= v < i + 2 * p ==> Flip(v, k) == v - p
    requires PairedUpTo(was, before, k, i) && Joined(before, now, i, p)
    ensures PairedUpTo(was, now, k, i + 2 * p)
  {
    hide Flip;
    forall v | 0 <= v < i + 2 * p
      ensures 0 <= Flip(v, k) < 256 && (now[v] <==> was[v] || was[Flip(v, k)])
    {
      if v < i {
        assert now[v] == before[v];
      } else if v < i + p {
        assert before[v] == was[v] && before[v + p] == was[v + p];
        assert now[v] == (before[v] || before[v + p]);
      } else {
        assert before[v] == was[v] && before[v - p] == was[v - p];
        assert now[v] == (before[v] || before[v - p]);
      }
    }
  }

  method PairChunks(bits: array<bool>, size: nat, ghost k: nat)
    requires bits.Length == 256 && k < 8 && size == Pow2(k)
    modifies bits
    ensures Paired(old(bits[..]), bits[..], k)
  {
    hide Pow2, Flip, PairedUpTo, Joined;
    ghost var was := bits[..];
    Chunks(k);
    var i := 0;
    ghost var m := 0;
    NonePaired(was, k);
    while i < 256
      invariant m <= Pow2(7 - k) && i == Pow2(k + 1) * m
      invariant PairedUpTo(was, bits[..], k, i)
    {
      ghost var before := bits[..];
      NextChunk(m, Pow2(7 - k), k);
      JoinChunks(bits, i, size);
      PairOfChunk(i, m, k);
      JoinedIsPaired(was, before, bits[..], k, i, size);
      i := i + size * 2;
      m := m + 1;
    }
    AllPaired(was, bits[..], k, i);
  }

  lemma NonePaired(was: OctetSet, k: nat)
    ensures PairedUpTo(was, was, k, 0)
  {
  }

  lemma AllPaired(was: OctetSet, now: OctetSet, k: nat, i: nat)
    requires i >= 256 && PairedUpTo(was, now, k, i)
    ensures Paired(was, now, k)
  {
  }

  lemma NextChunk(m: nat, n: nat, k: nat)
    requires Pow2(k + 1) * m < Pow2(k + 1) * n
    ensures m < n
    ensures Pow2(k + 1) * (m + 1) == Pow2(k + 1) * m + 2 * Pow2(k) <= Pow2(k + 1) * n
  {
    var p := Pow2(k + 1);
    Distribute(p, n, m);
    if m > n { MulAtLeast(p, m - n); } else if m < n { MulAtLeast(p, n - m); }
  }

  lemma PairOfChunk(i: nat, m: nat, k: nat)
    requires i == Pow2(k + 1) * m
    ensures forall v :: i <= v < i + Pow2(k) ==> Flip(v, k) == v + Pow2(k)
    ensures forall v :: i + Pow2(k) <= v < i + 2 * Pow2(k) ==> Flip(v, k) == v - Pow2(k)
  {
    forall v | i <= v < i + Pow2(k) ensures Flip(v, k) == v + Pow2(k) {
      FlipPair(m, v - i, k);
    }
    forall v | i + Pow2(k) <= v < i + 2 * Pow2(k) ensures Flip(v, k) == v - Pow2(k) {
      FlipPair(m, v - i - Pow2(k), k);
    }
  }

  /** Pairs up chunks of doubling size at every bit that the mask does not keep. */
  method ApplyNetmaskOctet(bits: array<bool>, mask: nat)
    requires bits.Length == 256
    modifies bits
    ensures ClosedUnder(old(bits[..]), bits[..], mask)
  {
    hide Closing, Paired, ClosedUnder, And, Bit, Pow2;
    ghost var was := bits[..];
    ghost var k := 0;
    var size := 1;
    ClosingStarts(was, mask);
    Pow2Values();
    while size < 256
      invariant k <= 8 && size == Pow2(k)
      invariant Closing(was, bits[..], mask, k)
      decreases 8 - k
    {
      ghost var now := bits[..];
      AndPow2(mask, k);
      Pow2Next(k);
      if And(mask, size) == 0 {
        PairChunks(bits, size, k);
      }
      ClosingStep(was, now, bits[..], mask, k);
      size := size * 2;
      k := k + 1;
    }
    Pow2Grows(k);
    ClosingEnds(was, bits[..], mask);
  }

  lemma Pow2Values()
    ensures Pow2(0) == 1 && Pow2(8) == 256
  {
    assert Pow2(4) == 16;
  }

  lemma Pow2Next(k: nat)
    ensures Pow2(k + 1) == 2 * Pow2(k)
  {
  }

  lemma {:induction false} Pow2Grows(k: nat)
    requires k <= 8
    ensures Pow2(k) >= 256 ==> k == 8
  {
    Pow2Values();
    if k < 8 { Chunks(k); MulAtLeast(Pow2(k + 1), Pow2(7 - k)); }
  }

  // ----- blocks

  /** One set for each octet. */
  type Block = b: seq<OctetSet> | |b| == 4 witness seq(4, _ => seq(256, _ => false))

  predicate InBlock(b: Block, x: seq<Octet>) {
    |x| == 4 && b[0][x[0]] && b[1][x[1]] && b[2][x[2]] && b[3][x[3]]
  }

  /** Lexicographic order, which is the order of the addresses as numbers (`LessIsValue`). */
  predicate Less(x: seq<nat>, y: seq<nat>)
    requires |x| == |y| == 4
  {
    x[0] < y[0] || (x[0] == y[0] &&
      (x[1] < y[1] || (x[1] == y[1] &&
        (x[2] < y[2] || (x[2] == y[2] && x[3] < y[3])))))
  }

  lemma LessIsValue(x: seq<Octet>, y: seq<Octet>)
    requires |x| == |y| == 4
    ensures Less(x, y) <==> Value(x) < Value(y)
  {
    Value4(x);
    Value4(y);
  }

  /** The number of an address, as the shifts of the C code pack it. */
  lemma Value4(x: seq<Octet>)
    requires |x| == 4
    ensures Value(x) == 0x1000000 * (x[0] as int) + 0x10000 * (x[1] as int) + 0x100 * (x[2] as int) + x[3]
  {
    assert x[..3][..2] == x[..2] && x[..2][..1] == x[..1] && x[..1][..0] == [];
    assert Value(x[..1]) == x[0];
    assert Value(x[..2]) == Value(x[..2][..1]) * 256 + x[1];
    assert Value(x[..3]) == Value(x[..3][..2]) * 256 + x[2];
  }

  // ----- netmasks of blocks

  /** The mask of `bits` one bits in the high end of 32, as shifted in 32 bits. */
  function Netmask(bits: nat): nat
    requires bits <= 32
  {
    if bits == 0 then 0 else (0xFFFFFFFF * Pow2(32 - bits)) % 0x1_0000_0000
  }

  function MaskOctet(mask: nat, i: nat): nat
    requires i < 4
  {
    match i
    case 0 => mask / 0x1000000 % 0x100
    case 1 => mask / 0x10000 % 0x100
    case 2 => mask / 0x100 % 0x100
    case 3 => mask % 0x100
  }

  lemma Pow2Of32()
    ensures Pow2(8) == 0x100 && Pow2(16) == 0x10000 && Pow2(24) == 0x1000000 && Pow2(32) == 0x1_0000_0000
  {
    Pow2Of8();
    Pow2Add(8, 8);
    Pow2Add(8, 16);
    Pow2Add(16, 16);
  }

  lemma {:induction false} Pow2Monotone(a: nat, b: nat)
    requires a <= b
    ensures Pow2(a) <= Pow2(b)
    decreases b
  {
    if a < b { Pow2Monotone(a, b - 1); }
  }

  lemma NetmaskValue(bits: nat)
    requires bits <= 32
    ensures Pow2(32 - bits) <= 0x1_0000_0000
    ensures Netmask(bits) == 0x1_0000_0000 - Pow2(32 - bits)
  {
    hide Pow2;
    Pow2Of32();
    Pow2Monotone(32 - bits, 32);
    if bits > 0 {
      Pow2Monotone(32 - bits, 31);
      assert Pow2(32) == 2 * Pow2(31) by { Pow2Next(31); }
      var p := Pow2(32 - bits);
      DivModUnique(0xFFFFFFFF * p, 0x1_0000_0000, p - 1, 0x1_0000_0000 - p);
    }
  }

  function Weight(i: nat): (w: nat)
    requires i < 4
    ensures w > 0
  {
    match i
    case 0 => 0x1000000
    case 1 => 0x10000
    case 2 => 0x100
    case 3 => 1
  }

  lemma MaskAbove(p: nat, i: nat)
    requires i < 4 && 0 < p <= Weight(i)
    ensures MaskOctet(0x1_0000_0000 - p, i) == 255
  {
    match i
    case 0 => DivModUnique(0x1_0000_0000 - p, 0x1000000, 0xFF, 0x1000000 - p);
    case 1 => DivModUnique(0x1_0000_0000 - p, 0x10000, 0xFFFF, 0x10000 - p);
    case 2 => DivModUnique(0x1_0000_0000 - p, 0x100, 0xFFFFFF, 0x100 - p);
    case 3 =>
  }

  lemma MaskWithin(p: nat, i: nat)
    requires i < 4 && 0 < p <= 256
    ensures p * Weight(i) <= 0x1_0000_0000 && MaskOctet(0x1_0000_0000 - p * Weight(i), i) == 256 - p
  {
    match i
    case 0 => DivModUnique(0x1_0000_0000 - p * 0x1000000, 0x1000000, 0x100 - p, 0);
    case 1 => DivModUnique(0x1_0000_0000 - p * 0x10000, 0x10000, 0x10000 - p, 0);
    case 2 => DivModUnique(0x1_0000_0000 - p * 0x100, 0x100, 0x1000000 - p, 0);
    case 3 =>
  }

  lemma MaskBelow(p: nat, i: nat)
    requires i < 4 && 0 < p && p * 256 * Weight(i) <= 0x1_0000_0000
    ensures MaskOctet(0x1_0000_0000 - p * 256 * Weight(i), i) == 0
  {
    match i
    case 0 => DivModUnique(0x1_0000_0000 - p * 0x1_0000_0000, 0x1000000, 0x100 - p * 256, 0);
    case 1 => DivModUnique(0x1_0000_0000 - p * 0x1000000, 0x10000, 0x10000 - p * 256, 0);
    case 2 => DivModUnique(0x1_0000_0000 - p * 0x10000, 0x100, 0x1000000 - p * 256, 0);
    case 3 =>
  }

  lemma WeightIsPow2(i: nat)
    requires i < 4
    ensures Weight(i) == Pow2(8 * (3 - i))
  {
    hide Pow2;
    Pow2Of32();
    Pow2Values();
  }

  /** Each octet of a netmask keeps the bits above its share of the host part. */
  lemma NetmaskOctet(h: nat, i: nat)
    requires h <= 32 && i < 4
    ensures 0 < Pow2(HostBits(h, 4, i)) <= 256
    ensures Pow2(h) <= 0x1_0000_0000
    ensures MaskOctet(0x1_0000_0000 - Pow2(h), i) == 256 - Pow2(HostBits(h, 4, i))
  {
    hide Pow2, MaskOctet, Weight;
    Pow2Of32();
    Pow2Values();
    WeightIsPow2(i);
    Pow2Monotone(HostBits(h, 4, i), 8);
    Pow2Monotone(h, 32);
    var low := 8 * (3 - i);
    if h <= low {
      Pow2Monotone(h, low);
      MaskAbove(Pow2(h), i);
    } else if h <= low + 8 {
      Pow2Add(h - low, low);
      MaskWithin(Pow2(h - low), i);
    } else {
      Pow2Add(h - low - 8, low + 8);
      Pow2Add(low, 8);
      TripleProduct(Pow2(h - low - 8), Weight(i));
      MaskBelow(Pow2(h - low - 8), i);
    }
  }

  lemma TripleProduct(p: nat, w: nat)
    ensures p * (w * 256) == p * 256 * w
  {
  }

  lemma PrefixIsQuotient(a: nat, b: nat, k: nat)
    ensures SamePrefix(a, b, k) <==> a / Pow2(k) == b / Pow2(k)
  {
  }

  lemma OctetClosed(was: OctetSet, now: OctetSet, k: nat, v: Octet)
    requires k <= 8 && 0 < Pow2(k) <= 256 && ClosedUnder(was, now, 256 - Pow2(k))
    ensures now[v] <==> exists u: Octet :: was[u] && SamePrefix(v, u, k)
  {
    hide Pow2, And, SamePrefix;
    Pow2Values();
    forall u: Octet ensures And(u, 256 - Pow2(k)) == And(v, 256 - Pow2(k)) <==> SamePrefix(v, u, k) {
      SameHighBits(u, v, k, 8);
      PrefixIsQuotient(v, u, k);
    }
    if now[v] {
      var u :| 0 <= u < 256 && was[u] && And(u, 256 - Pow2(k)) == And(v, 256 - Pow2(k));
      assert SamePrefix(v, u, k);
    }
  }

  ghost predicate BlockClosedUnder(was: Block, now: Block, mask: nat) {
    forall i :: 0 <= i < 4 ==> ClosedUnder(was[i], now[i], MaskOctet(mask, i))
  }

  /** Closing each octet under its part of a netmask closes the block: it then holds the addresses
      that share the network part with an address that it held. */
  lemma BlockClosed(was: Block, now: Block, bits: nat, x: seq<Octet>)
    requires bits <= 32 && |x| == 4 && BlockClosedUnder(was, now, Netmask(bits))
    ensures InBlock(now, x) <==>
            exists y :: InBlock(was, y) && SamePrefix(Value(x), Value(y), 32 - bits)
  {
    hide Pow2, SamePrefix, MaskOctet, ClosedUnder, Value, HostBits, Netmask;
    var h := 32 - bits;
    NetmaskValue(bits);
    forall i | 0 <= i < 4
      ensures now[i][x[i]] <==> exists u: Octet :: was[i][u] && SamePrefix(x[i], u, HostBits(h, 4, i))
    {
      NetmaskOctet(h, i);
      OctetClosed(was[i], now[i], HostBits(h, 4, i), x[i]);
    }
    if InBlock(now, x) {
      var u0: Octet :| was[0][u0] && SamePrefix(x[0], u0, HostBits(h, 4, 0));
      var u1: Octet :| was[1][u1] && SamePrefix(x[1], u1, HostBits(h, 4, 1));
      var u2: Octet :| was[2][u2] && SamePrefix(x[2], u2, HostBits(h, 4, 2));
      var u3: Octet :| was[3][u3] && SamePrefix(x[3], u3, HostBits(h, 4, 3));
      var y := [u0, u1, u2, u3];
      PrefixByBytes(x, y, h);
      assert InBlock(was, y) && SamePrefix(Value(x), Value(y), h);
    }
    if y :| InBlock(was, y) && SamePrefix(Value(x), Value(y), h) {
      PrefixByBytes(x, y, h);
      assert forall i :: 0 <= i < 4 ==> was[i][y[i]] && SamePrefix(x[i], y[i], HostBits(h, 4, i));
    }
  }

  // ----- enumeration

  ghost predicate NoBit(s: OctetSet) { forall v :: 0 <= v < 256 ==> !s[v] }

  ghost predicate Empty(b: Block) { NoBit(b[0]) || NoBit(b[1]) || NoBit(b[2]) || NoBit(b[3]) }

  predicate AllSet(b: Block, c: seq<nat>) {
    |c| == 4 && forall i :: 0 <= i < 4 ==> c[i] < 256 && b[i][c[i]]
  }

  predicate All(c: seq<nat>, v: nat) { |c| == 4 && forall i :: 0 <= i < 4 ==> c[i] == v }

  /** Counters on which `Next` may be called. */
  ghost predicate Ready(b: Block, c: seq<nat>) {
    |c| == 4 && (forall i :: 0 <= i < 4 ==> c[i] <= 256) && (Empty(b) || All(c, 0) || All(c, 256) || AllSet(b, c))
  }

  lemma OctetGrows(was: OctetSet, now: OctetSet, mask: nat)
    requires ClosedUnder(was, now, mask)
    ensures forall v :: 0 <= v < 256 && was[v] ==> now[v]
    ensures NoBit(was) ==> NoBit(now)
  {
    hide And;
  }

  lemma StillReady(was: Block, now: Block, c: seq<nat>, mask: nat)
    requires Ready(was, c) && BlockClosedUnder(was, now, mask)
    ensures Ready(now, c)
  {
    hide MaskOctet, ClosedUnder, NoBit;
    forall i | 0 <= i < 4
      ensures (forall v :: 0 <= v < 256 && was[i][v] ==> now[i][v]) && (NoBit(was[i]) ==> NoBit(now[i]))
    {
      OctetGrows(was[i], now[i], MaskOctet(mask, i));
    }
  }

  /** The addresses still to be emitted: those from the counters up. */
  ghost predicate Pending(b: Block, c: seq<nat>, x: seq<Octet>)
    requires |c| == 4
  {
    InBlock(b, x) && !Less(x, c)
  }

  /** `now` is the first bit set in `s` from `was` up. */
  predicate FirstFrom(s: OctetSet, was: nat, now: nat) {
    was <= now && forall v :: was <= v < now && v < 256 ==> !s[v]
  }

  lemma SettledKeeps(b: Block, was: seq<nat>, now: seq<nat>)
    requires Ready(b, was) && AllSet(b, now)
    requires forall i :: 0 <= i < 4 ==> FirstFrom(b[i], was[i], now[i])
    ensures InBlock(b, now) && forall x :: Pending(b, now, x) <==> Pending(b, was, x)
  {
    if AllSet(b, was) {
      assert was == now;
    } else if !Empty(b) {
      forall x: seq<Octet> | InBlock(b, x) ensures !Less(x, now) && !Less(x, was) { }
    }
  }

  lemma NotSettled(b: Block, was: seq<nat>, i: nat)
    requires Ready(b, was) && i < 4 && FirstFrom(b[i], was[i], 256)
    ensures forall x :: !Pending(b, was, x)
    ensures All(was, 256) || Empty(b)
  {
    if AllSet(b, was) { assert false; }
  }

  /** `now` is the next bit set after `was`, in the same round. */
  predicate Bumped(s: OctetSet, was: nat, now: nat) {
    was < now < 256 && s[now] && forall v :: was < v < now ==> !s[v]
  }

  /** There is no bit set after `was`, and `now` is the first one of the next round. */
  predicate Wrapped(s: OctetSet, was: nat, now: nat) {
    was < 256 && now < 256 && s[now] && (forall v :: was < v < 256 ==> !s[v]) && forall v :: 0 <= v < now ==> !s[v]
  }

  lemma OdometerBump(b: Block, was: seq<nat>, now: seq<nat>, k: nat)
    requires AllSet(b, was) && |now| == 4 && k < 4
    requires now[..k] == was[..k] && Bumped(b[k], was[k], now[k])
    requires forall j :: k < j < 4 ==> Wrapped(b[j], was[j], now[j])
    ensures AllSet(b, now) && Less(was, now)
    ensures forall x :: Pending(b, now, x) <==> Pending(b, was, x) && x != was
  {
    forall j | 0 <= j < k ensures now[j] == was[j] { assert now[..k][j] == was[..k][j]; }
    forall x | InBlock(b, x) ensures Pending(b, now, x) <==> Pending(b, was, x) && x != was {
      FirstDifference(b, was, now, k, x);
    }
  }

  lemma FirstDifference(b: Block, was: seq<nat>, now: seq<nat>, k: nat, x: seq<Octet>)
    requires AllSet(b, was) && |now| == 4 && k < 4 && InBlock(b, x)
    requires forall j :: 0 <= j < k ==> now[j] == was[j]
    requires Bumped(b[k], was[k], now[k])
    requires forall j :: k < j < 4 ==> Wrapped(b[j], was[j], now[j])
    ensures !Less(x, now) <==> !Less(x, was) && x != was
  {
    assert x[k] <= was[k] || x[k] >= now[k];
    assert forall j :: k < j < 4 ==> now[j] <= x[j] <= was[j];
  }

  lemma OdometerEnd(b: Block, was: seq<nat>, now: seq<nat>, x: seq<Octet>)
    requires AllSet(b, was) && |now| == 4
    requires forall j :: 0 <= j < 4 ==> Wrapped(b[j], was[j], now[j])
    ensures Pending(b, was, x) ==> x == was
  {
    if InBlock(b, x) {
      assert forall j :: 0 <= j < 4 ==> x[j] <= was[j];
    }
  }

  /** The do-while loop on one counter: the next bit set, and whether the counter went through 0. */
  method Advance(bits: array<bool>, c: nat) returns (now: nat, carry: bool)
    requires bits.Length == 256 && c < 256 && bits[c]
    ensures if carry then Wrapped(bits[..], c, now) else Bumped(bits[..], c, now)
  {
    now, carry := (c + 1) % 256, false;
    if now == 0 { carry := true; }
    while !bits[now]
      invariant now < 256
      invariant carry ==> now <= c && (forall v :: c < v < 256 ==> !bits[v]) && forall v :: 0 <= v < now ==> !bits[v]
      invariant !carry ==> c < now && forall v :: c < v < now ==> !bits[v]
      decreases !carry, 256 - now
    {
      now := (now + 1) % 256;
      if now == 0 { carry := true; }
    }
  }

  class NetBlockIPv4Ranges {
    const octets: seq<array<bool>>
    const counter: array<nat>

    ghost predicate Shape() {
      && |octets| == 4 && counter.Length == 4
      && (forall i :: 0 <= i < 4 ==> octets[i].Length == 256)
      && (forall i, j :: 0 <= i < j < 4 ==> octets[i] != octets[j])
    }

    ghost function Sets(): Block
      requires Shape()
      reads octets
    {
      [octets[0][..], octets[1][..], octets[2][..], octets[3][..]]
    }

    ghost predicate Valid()
      reads octets, counter
    {
      Shape() && Ready(Sets(), counter[..])
    }

    ghost predicate Remaining(x: seq<Octet>)
      requires Shape()
      reads octets, counter
    {
      Pending(Sets(), counter[..], x)
    }

    constructor ()
      ensures Valid() && fresh(octets) && fresh(counter)
      ensures forall x :: !InBlock(Sets(), x)
      ensures All(counter[..], 0)
    {
      var o0, o1, o2, o3 := new bool[256], new bool[256], new bool[256], new bool[256];
      forall v | 0 <= v < 256 { o0[v] := false; }
      forall v | 0 <= v < 256 { o1[v] := false; }
      forall v | 0 <= v < 256 { o2[v] := false; }
      forall v | 0 <= v < 256 { o3[v] := false; }
      octets := [o0, o1, o2, o3];
      counter := new nat[4](_ => 0);
    }

    /** Widens the block to every address that shares the first `bits` bits with one of its own;
        a negative number of bits stands for 32, more than 32 change nothing. */
    method ApplyNetmask(bits: int)
      requires Valid()
      modifies octets
      ensures Valid()
      ensures bits > 32 ==> forall x :: InBlock(Sets(), x) <==> old(InBlock(Sets(), x))
      ensures bits <= 32 ==> forall x: seq<Octet> | |x| == 4 ::
                InBlock(Sets(), x) <==>
                exists y :: old(InBlock(Sets(), y))
                  && SamePrefix(Value(x), Value(y), 32 - if bits < 0 then 32 else bits)
    {
      hide ClosedUnder, MaskOctet, Netmask, InBlock, Value, SamePrefix, Ready;
      if bits > 32 { return; }
      var n := if bits < 0 then 32 else bits;
      var mask := Netmask(n);
      ghost var was := Sets();
      var i := 0;
      while i < 4
        invariant i <= 4 && Shape()
        invariant forall j :: 0 <= j < i ==> ClosedUnder(was[j], octets[j][..], MaskOctet(mask, j))
        invariant forall j :: i <= j < 4 ==> octets[j][..] == was[j]
      {
        ApplyNetmaskOctet(octets[i], MaskOctet(mask, i));
        i := i + 1;
      }
      ghost var now := Sets();
      StillReady(was, now, counter[..], mask);
      forall x: seq<Octet> | |x| == 4
        ensures InBlock(now, x) <==> exists y :: InBlock(was, y) && SamePrefix(Value(x), Value(y), 32 - n)
      {
        BlockClosed(was, now, n, x);
      }
    }

    /** Moves each counter to a bit that is set; fails if there is none. */
    method Settle() returns (ok: bool)
      requires Valid()
      modifies counter
      ensures Valid()
      ensures ok ==> AllSet(Sets(), counter[..]) && Remaining(counter[..])
      ensures ok ==> forall x :: Remaining(x) <==> old(Remaining(x))
      ensures !ok ==> forall x :: !Remaining(x) && !old(Remaining(x))
      ensures ok ==> forall i :: 0 <= i < 4 ==> old(counter[i]) <= counter[i]
    {
      ghost var b, was := Sets(), counter[..];
      ok := true;
      var i := 0;
      while i < 4
        invariant i <= 4
        invariant forall j :: 0 <= j < i ==>
                    counter[j] < 256 && b[j][counter[j]] && FirstFrom(b[j], was[j], counter[j])
        invariant forall j :: i <= j < 4 ==> counter[j] == was[j]
      {
        label Outer:
        while counter[i] < 256 && !octets[i][counter[i]]
          invariant FirstFrom(b[i], was[i], counter[i]) && counter[i] <= 256
          invariant forall j :: 0 <= j < 4 && j != i ==> counter[j] == old@Outer(counter[j])
          decreases 256 - counter[i]
        {
          counter[i] := counter[i] + 1;
        }
        if counter[i] >= 256 {
          assert FirstFrom(b[i], was[i], 256);
          NotSettled(b, was, i);
          return false;
        }
        i := i + 1;
      }
      SettledKeeps(b, was, counter[..]);
    }

    /** Moves the counters on, the last one first; when all have wrapped they are marked invalid. */
    method Bump()
      requires Valid() && AllSet(Sets(), counter[..])
      modifies counter
      ensures Valid()
      ensures Less(old(counter[..]), counter[..])
      ensures forall x :: Remaining(x) <==> old(Remaining(x)) && x != old(counter[..])
    {
      ghost var b, was := Sets(), counter[..];
      var i := 0;
      while i < 4
        invariant i <= 4
        invariant counter[..4 - i] == was[..4 - i]
        invariant forall j :: 4 - i <= j < 4 ==> Wrapped(b[j], was[j], counter[j])
      {
        var k := 3 - i;
        ghost var before := counter[..];
        assert counter[..k + 1][k] == was[..k + 1][k];
        var now, carry := Advance(octets[k], counter[k]);
        counter[k] := now;
        assert counter[..k] == was[..k] by { assert before[..k + 1][..k] == was[..k + 1][..k]; }
        assert forall j :: k < j < 4 ==> counter[j] == before[j];
        if !carry {
          OdometerBump(b, was, counter[..], k);
          return;
        }
        i := i + 1;
      }
      ghost var wrapped := counter[..];
      forall x ensures Pending(b, was, x) ==> x == was {
        OdometerEnd(b, was, wrapped, x);
      }
      counter[0], counter[1], counter[2], counter[3] := 256, 256, 256, 256;
    }

    /** Emits the least address that remains, and fails only when none does. */
    method Next() returns (ok: bool, address: seq<Octet>)
      requires Valid()
      modifies counter
      ensures Valid()
      ensures ok <==> exists x: seq<Octet> :: old(Remaining(x))
      ensures ok ==> old(Remaining(address))
      ensures ok ==> forall x: seq<Octet> :: old(Remaining(x)) ==> x == address || Less(address, x)
      ensures forall x: seq<Octet> :: Remaining(x) <==> old(Remaining(x)) && !(ok && x == address)
      ensures ok ==> Less(old(counter[..]), counter[..])
    {
      address := [];
      ok := Settle();
      if !ok { return; }
      address := counter[..];
      Bump();
    }

    /** Calls `Next` until it fails: the addresses of the block, each once, in increasing order. */
    method Enumerate() returns (addresses: seq<seq<Octet>>)
      requires Valid()
      modifies counter
      ensures Valid()
      ensures forall x: seq<Octet> :: x in addresses <==> old(Remaining(x))
      ensures forall i, j :: 0 <= i < j < |addresses| ==>
                |addresses[i]| == |addresses[j]| == 4 && Less(addresses[i], addresses[j])
      ensures forall x: seq<Octet> :: !Remaining(x)
    {
      addresses := [];
      var ok := true;
      while ok
        invariant Valid()
        invariant forall i :: 0 <= i < |addresses| ==>
                    |addresses[i]| == 4 && forall x: seq<Octet> :: Remaining(x) ==> Less(addresses[i], x)
        invariant forall i, j :: 0 <= i < j < |addresses| ==> Less(addresses[i], addresses[j])
        invariant forall x: seq<Octet> :: old(Remaining(x)) <==> x in addresses || Remaining(x)
        invariant !ok ==> forall x: seq<Octet> :: !Remaining(x)
        decreases ok, 256 - counter[0], 256 - counter[1], 256 - counter[2], 256 - counter[3]
      {
        var address: seq<Octet>;
        ok, address := Next();
        if ok { addresses := addresses + [address]; }
      }
    }
  }
}
