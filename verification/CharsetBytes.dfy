/** Character sets as the C code holds them, in 32 bytes, and the sets they stand for. */
module CharsetBytes {
  import opened Peg
  import opened CodeGen

  const CHARSETSIZE := 32
  const BITSPERCHAR := 8

  type Bytes32 = s: seq<bv8> | |s| == CHARSETSIZE witness seq(CHARSETSIZE, _ => 0)

  function Mask(k: nat): bv8
    requires k < 8
  {
    match k
    case 0 => 0x01
    case 1 => 0x02
    case 2 => 0x04
    case 3 => 0x08
    case 4 => 0x10
    case 5 => 0x20
    case 6 => 0x40
    case 7 => 0x80
  }

  predicate BitOf(b: bv8, k: nat)
    requires k < 8
  {
    b & Mask(k) != 0
  }

  predicate Has(cs: Bytes32, c: Byte) { BitOf(cs[c as nat / 8], c as nat % 8) }

  ghost function SetOf(cs: Bytes32): Charset { set c: Byte | Has(cs, c) }

  function CharAt(i: nat, k: nat): Byte
    requires i < CHARSETSIZE && k < 8
  {
    (i * 8 + k) as Byte
  }

  lemma CharHas(cs: Bytes32, i: nat, k: nat)
    requires i < CHARSETSIZE && k < 8
    ensures CharAt(i, k) in SetOf(cs) <==> BitOf(cs[i], k)
  {
    assert (i * 8 + k) / 8 == i && (i * 8 + k) % 8 == k;
  }

  // ----- bytes

  lemma ZeroByte(b: bv8)
    ensures b == 0 <==> forall k :: 0 <= k < 8 ==> !BitOf(b, k)
  {
    if b != 0 {
      assert BitOf(b, 0) || BitOf(b, 1) || BitOf(b, 2) || BitOf(b, 3) || BitOf(b, 4) || BitOf(b, 5) || BitOf(b, 6)
          || BitOf(b, 7);
    }
  }

  lemma FullByte(b: bv8)
    ensures b == 0xFF <==> forall k :: 0 <= k < 8 ==> BitOf(b, k)
  {
    if b != 0xFF {
      assert !BitOf(b, 0) || !BitOf(b, 1) || !BitOf(b, 2) || !BitOf(b, 3) || !BitOf(b, 4) || !BitOf(b, 5)
          || !BitOf(b, 6) || !BitOf(b, 7);
    }
  }

  /** The test for a byte with a single bit, and the search for that bit. */
  lemma OneBit(b: bv8)
    requires b != 0 && b & (b - 1) == 0
    ensures exists k :: 0 <= k < 8 && b == Mask(k)
  {
    assert b == Mask(0) || b == Mask(1) || b == Mask(2) || b == Mask(3) || b == Mask(4) || b == Mask(5)
        || b == Mask(6) || b == Mask(7);
  }

  lemma MaskBits(k: nat)
    requires k < 8
    ensures Mask(k) != 0 && Mask(k) != 0xFF && Mask(k) & (Mask(k) - 1) == 0
    ensures forall j :: 0 <= j < 8 ==> (BitOf(Mask(k), j) <==> j == k)
  {
  }

  function BitIndex(b: bv8): nat {
    var c4, b4 := if b & 0xF0 != 0 then 4 else 0, if b & 0xF0 != 0 then b >> 4 else b;
    var c2, b2 := if b4 & 0x0C != 0 then 2 else 0, if b4 & 0x0C != 0 then b4 >> 2 else b4;
    c4 + c2 + if b2 & 0x02 != 0 then 1 else 0
  }

  lemma IndexOfMask(k: nat)
    requires k < 8
    ensures BitIndex(Mask(k)) == k
  {
  }

  lemma TwoBits(b: bv8) returns (j: nat, k: nat)
    requires b != 0 && b & (b - 1) != 0
    ensures j < 8 && k < 8 && j != k && BitOf(b, j) && BitOf(b, k)
  {
    var rest := b & (b - 1);
    var low := b & !rest;
    assert low != 0;
    ZeroByte(rest);
    ZeroByte(low);
    j :| 0 <= j < 8 && BitOf(rest, j);
    k :| 0 <= k < 8 && BitOf(low, k);
    AndBit(b, b - 1, j);
    AndBit(b, !rest, k);
    NotBit(rest, k);
  }

  lemma AndBit(x: bv8, y: bv8, k: nat)
    requires k < 8
    ensures BitOf(x & y, k) <==> BitOf(x, k) && BitOf(y, k)
  {
  }

  lemma OrBit(x: bv8, y: bv8, k: nat)
    requires k < 8
    ensures BitOf(x | y, k) <==> BitOf(x, k) || BitOf(y, k)
  {
  }

  lemma NotBit(x: bv8, k: nat)
    requires k < 8
    ensures BitOf(!x, k) <==> !BitOf(x, k)
  {
  }

  // ----- whole sets

  lemma CharIsCharAt(c: Byte)
    ensures (c as nat / 8) < CHARSETSIZE && c == CharAt(c as nat / 8, c as nat % 8)
  {
  }

  lemma CharAtInjective(i: nat, k: nat, j: nat, l: nat)
    requires i < CHARSETSIZE && j < CHARSETSIZE && k < 8 && l < 8 && (i != j || k != l)
    ensures CharAt(i, k) != CharAt(j, l)
  {
  }

  /** Two members and a character outside: neither empty, nor full, nor a single character. */
  lemma NeitherOfThem(cs: Bytes32, i: nat, k: nat, j: nat, l: nat, x: nat, y: nat)
    requires i < CHARSETSIZE && j < CHARSETSIZE && x < CHARSETSIZE && k < 8 && l < 8 && y < 8
    requires (i != j || k != l) && BitOf(cs[i], k) && BitOf(cs[j], l) && !BitOf(cs[x], y)
    ensures CharsetType(SetOf(cs)) == Other
  {
    CharHas(cs, i, k);
    CharHas(cs, j, l);
    CharHas(cs, x, y);
    CharAtInjective(i, k, j, l);
    var set_ := SetOf(cs);
    assert CharAt(i, k) in set_ && CharAt(j, l) in set_ && CharAt(x, y) !in set_;
    FullHas(CharAt(x, y));
  }

  lemma FullHas(c: Byte)
    ensures c in FULLSET
  {
  }

  /** What the bytes below `i` hold, by the number of characters counted in them. */
  predicate Counted(cs: Bytes32, i: nat, count: nat, candidate: int) {
    && i <= CHARSETSIZE
    && (count == 0 || count == 1 || (count == i * BITSPERCHAR && count > 1))
    && (count == 0 ==> forall j :: 0 <= j < i ==> cs[j] == 0)
    && (count == 1 ==>
          && 0 <= candidate < i && cs[candidate] != 0 && cs[candidate] != 0xFF
          && cs[candidate] & (cs[candidate] - 1) == 0
          && forall j :: 0 <= j < i && j != candidate ==> cs[j] == 0)
    && (count > 1 ==> forall j :: 0 <= j < i ==> cs[j] == 0xFF)
  }

  /** The kind of a set, by one pass over its bytes. */
  method CharsetTypeOf(cs: Bytes32) returns (r: SetType)
    ensures r == CharsetType(SetOf(cs))
  {
    hide CharsetType, SetOf, BitOf;
    var count: nat, candidate: int := 0, -1;
    var i := 0;
    while i < CHARSETSIZE
      invariant Counted(cs, i, count, candidate)
    {
      var b := cs[i];
      if b == 0 {
        if count > 1 {
          FullThenNot(cs, i);
          return Other;
        }
      } else if b == 0xFF {
        if count < i * BITSPERCHAR {
          NotThenFull(cs, i, count, candidate);
          return Other;
        }
        count := count + BITSPERCHAR;
      } else if b & (b - 1) == 0 {
        if count > 0 {
          OneMoreChar(cs, i, count, candidate);
          return Other;
        }
        count := count + 1;
        candidate := i;
      } else {
        SeveralChars(cs, i);
        return Other;
      }
      i := i + 1;
    }
    if count == 0 {
      NoChars(cs);
      r := EmptySet;
    } else if count == 1 {
      r := Single(CharAt(candidate, OneBitIndex(cs, candidate)));
      OneChar(cs, candidate);
    } else {
      AllChars(cs);
      r := Full;
    }
  }

  function OneBitIndex(cs: Bytes32, i: nat): (k: nat)
    requires i < CHARSETSIZE && cs[i] != 0 && cs[i] & (cs[i] - 1) == 0
    ensures k < 8 && cs[i] == Mask(k)
  {
    OneBit(cs[i]);
    var k :| 0 <= k < 8 && cs[i] == Mask(k);
    IndexOfMask(k);
    BitIndex(cs[i])
  }

  lemma FullThenNot(cs: Bytes32, i: nat)
    requires 0 < i < CHARSETSIZE && cs[0] == 0xFF && cs[i] == 0
    ensures CharsetType(SetOf(cs)) == Other
  {
    FullByte(cs[0]);
    ZeroByte(cs[i]);
    NeitherOfThem(cs, 0, 0, 0, 1, i, 0);
  }

  lemma NotThenFull(cs: Bytes32, i: nat, count: nat, candidate: int)
    requires i < CHARSETSIZE && Counted(cs, i, count, candidate) && cs[i] == 0xFF && count < i * BITSPERCHAR
    ensures CharsetType(SetOf(cs)) == Other
  {
    FullByte(cs[i]);
    FullByte(cs[0]);
    var y :| 0 <= y < 8 && !BitOf(cs[0], y);
    NeitherOfThem(cs, i, 0, i, 1, 0, y);
  }

  lemma OneMoreChar(cs: Bytes32, i: nat, count: nat, candidate: int)
    requires i < CHARSETSIZE && Counted(cs, i, count, candidate) && count > 0
    requires cs[i] != 0 && cs[i] != 0xFF
    ensures CharsetType(SetOf(cs)) == Other
  {
    var j := if count == 1 then candidate else 0;
    ZeroByte(cs[i]);
    FullByte(cs[i]);
    ZeroByte(cs[j]);
    var k :| 0 <= k < 8 && BitOf(cs[i], k);
    var y :| 0 <= y < 8 && !BitOf(cs[i], y);
    var l :| 0 <= l < 8 && BitOf(cs[j], l);
    NeitherOfThem(cs, i, k, j, l, i, y);
  }

  lemma SeveralChars(cs: Bytes32, i: nat)
    requires i < CHARSETSIZE && cs[i] != 0 && cs[i] != 0xFF && cs[i] & (cs[i] - 1) != 0
    ensures CharsetType(SetOf(cs)) == Other
  {
    var k, l := TwoBits(cs[i]);
    FullByte(cs[i]);
    var y :| 0 <= y < 8 && !BitOf(cs[i], y);
    NeitherOfThem(cs, i, k, i, l, i, y);
  }

  lemma NoChars(cs: Bytes32)
    requires forall j :: 0 <= j < CHARSETSIZE ==> cs[j] == 0
    ensures CharsetType(SetOf(cs)) == EmptySet
  {
    forall c: Byte ensures !Has(cs, c) {
      CharIsCharAt(c);
      ZeroByte(cs[c as nat / 8]);
    }
  }

  lemma AllChars(cs: Bytes32)
    requires forall j :: 0 <= j < CHARSETSIZE ==> cs[j] == 0xFF
    ensures CharsetType(SetOf(cs)) == Full
  {
    forall c: Byte ensures Has(cs, c) {
      CharIsCharAt(c);
      FullByte(cs[c as nat / 8]);
    }
    FullHas(0);
    FullHas(1);
    assert SetOf(cs) == FULLSET;
  }

  lemma OneChar(cs: Bytes32, i: nat)
    requires i < CHARSETSIZE && cs[i] != 0 && cs[i] & (cs[i] - 1) == 0
    requires forall j :: 0 <= j < CHARSETSIZE && j != i ==> cs[j] == 0
    ensures CharsetType(SetOf(cs)) == Single(CharAt(i, OneBitIndex(cs, i)))
  {
    var k := OneBitIndex(cs, i);
    MaskBits(k);
    forall c: Byte ensures Has(cs, c) <==> c == CharAt(i, k) {
      CharIsCharAt(c);
      ZeroByte(cs[c as nat / 8]);
    }
    assert SetOf(cs) == {CharAt(i, k)};
  }

  // ----- operations

  method Complement(cs: Bytes32) returns (r: Bytes32)
    ensures SetOf(r) == FULLSET - SetOf(cs)
  {
    r := cs;
    var i := 0;
    while i < CHARSETSIZE
      invariant i <= CHARSETSIZE
      invariant forall j :: 0 <= j < CHARSETSIZE ==> r[j] == if j < i then !cs[j] else cs[j]
    {
      r := r[i := !r[i]];
      i := i + 1;
    }
    forall c: Byte ensures Has(r, c) <==> !Has(cs, c) { NotBit(cs[c as nat / 8], c as nat % 8); }
  }

  method Union(a: Bytes32, b: Bytes32) returns (r: Bytes32)
    ensures SetOf(r) == SetOf(a) + SetOf(b)
  {
    r := a;
    var i := 0;
    while i < CHARSETSIZE
      invariant i <= CHARSETSIZE
      invariant forall j :: 0 <= j < CHARSETSIZE ==> r[j] == if j < i then a[j] | b[j] else a[j]
    {
      r := r[i := a[i] | b[i]];
      i := i + 1;
    }
    forall c: Byte ensures Has(r, c) <==> Has(a, c) || Has(b, c) {
      OrBit(a[c as nat / 8], b[c as nat / 8], c as nat % 8);
    }
  }

  method Disjoint(a: Bytes32, b: Bytes32) returns (r: bool)
    ensures r <==> SetOf(a) !! SetOf(b)
  {
    var i := 0;
    while i < CHARSETSIZE
      invariant i <= CHARSETSIZE
      invariant forall j :: 0 <= j < i ==> a[j] & b[j] == 0
    {
      if a[i] & b[i] != 0 {
        Shared(a, b, i);
        return false;
      }
      i := i + 1;
    }
    forall c: Byte ensures !(Has(a, c) && Has(b, c)) {
      CharIsCharAt(c);
      AndBit(a[c as nat / 8], b[c as nat / 8], c as nat % 8);
      ZeroByte(a[c as nat / 8] & b[c as nat / 8]);
    }
    r := true;
  }

  lemma Shared(a: Bytes32, b: Bytes32, i: nat)
    requires i < CHARSETSIZE && a[i] & b[i] != 0
    ensures !(SetOf(a) !! SetOf(b))
  {
    ZeroByte(a[i] & b[i]);
    var k :| 0 <= k < 8 && BitOf(a[i] & b[i], k);
    AndBit(a[i], b[i], k);
    CharHas(a, i, k);
    CharHas(b, i, k);
    assert CharAt(i, k) in SetOf(a) && CharAt(i, k) in SetOf(b);
  }

  method Equal(a: Bytes32, b: Bytes32) returns (r: bool)
    ensures r <==> SetOf(a) == SetOf(b)
  {
    var i := 0;
    while i < CHARSETSIZE
      invariant i <= CHARSETSIZE
      invariant forall j :: 0 <= j < i ==> a[j] == b[j]
    {
      if a[i] != b[i] {
        Differ(a, b, i);
        return false;
      }
      i := i + 1;
    }
    assert a == b;
    r := true;
  }

  lemma Differ(a: Bytes32, b: Bytes32, i: nat)
    requires i < CHARSETSIZE && a[i] != b[i]
    ensures SetOf(a) != SetOf(b)
  {
    SameByte(a[i], b[i]);
    var k :| 0 <= k < 8 && BitOf(a[i], k) != BitOf(b[i], k);
    CharHas(a, i, k);
    CharHas(b, i, k);
  }

  lemma SameByte(x: bv8, y: bv8)
    requires x != y
    ensures exists k :: 0 <= k < 8 && BitOf(x, k) != BitOf(y, k)
  {
    ZeroByte(x & !y);
    ZeroByte(!x & y);
    assert x & !y != 0 || !x & y != 0;
    var k :| 0 <= k < 8 && (BitOf(x & !y, k) || BitOf(!x & y, k));
    AndBit(x, !y, k);
    AndBit(!x, y, k);
    NotBit(x, k);
    NotBit(y, k);
  }
}
