/** Reverse names: an address as a name under in-addr.arpa or ip6.arpa, and back. */
module DnsPtr {
  import opened Peg
  import opened Bytes
  import opened DnsName
  import opened DnsPacket

  datatype Address = V4(v4: seq<Octet>) | V6(v6: seq<Octet>)

  predicate ValidAddress(a: Address) { if a.V4? then |a.v4| == 4 else |a.v6| == 16 }

  /** `Outside`: the C code would leave the name or its tables (see `OutsideExactly`). */
  datatype Reading = Found(a: Address) | NotReverse | Invalid | Outside

  /** ".in-addr.arpa" */
  const V4DOMAIN: Text := [46, 105, 110, 45, 97, 100, 100, 114, 46, 97, 114, 112, 97]
  /** ".ip6.arpa" */
  const V6DOMAIN: Text := [46, 105, 112, 54, 46, 97, 114, 112, 97]

  function Lower(c: Octet): Octet { if 65 <= c <= 90 then c + 32 else c }

  predicate SameIgnoringCase(x: Text, y: Text) { |x| == |y| && forall k :: 0 <= k < |x| ==> Lower(x[k]) == Lower(y[k]) }

  predicate EndsWith(name: Text, domain: Text) {
    |name| >= |domain| && SameIgnoringCase(name[|name| - |domain|..], domain)
  }

  // ----- address to name

  function Decimal(n: Octet): (t: Text)
    ensures 1 <= |t| <= 3 && DOT !in t
  {
    if n < 10 then [48 + n]
    else if n < 100 then [48 + n / 10, 48 + n % 10]
    else [48 + n / 100, 48 + n / 10 % 10, 48 + n % 10]
  }

  function HexDigit(n: nat): (c: Octet)
    requires n < 16
    ensures c != DOT
  {
    if n < 10 then 48 + n else 87 + n
  }

  /** The bytes from the last down to byte `k`, low nibble first, with a dot before each nibble. */
  function Nibbles(v: seq<Octet>, k: nat): Text
    requires k <= |v|
    decreases |v| - k
  {
    if k == |v| then [] else Nibbles(v, k + 1) + [DOT, HexDigit(v[k] % 16), DOT, HexDigit(v[k] / 16)]
  }

  function PtrName(a: Address): Text
    requires ValidAddress(a)
  {
    match a
    case V4(v) => Decimal(v[3]) + [DOT] + Decimal(v[2]) + [DOT] + Decimal(v[1]) + [DOT] + Decimal(v[0]) + V4DOMAIN
    case V6(v) => Nibbles(v, 0)[1..] + V6DOMAIN
  }

  method IpToPtr(a: Address) returns (ptr: Text)
    requires ValidAddress(a)
    ensures ptr == PtrName(a)
  {
    match a
    case V4(v) =>
      ptr := Decimal(v[3]) + [DOT] + Decimal(v[2]) + [DOT] + Decimal(v[1]) + [DOT] + Decimal(v[0]);
      ptr := ptr + V4DOMAIN;
    case V6(v) =>
      ptr := [];
      var i := 15;
      while i >= 0
        invariant -1 <= i <= 15
        invariant ptr == Nibbles(v, i + 1)
      {
        var high, low := HexDigit(v[i] / 16), HexDigit(v[i] % 16);
        ptr := ptr + [DOT];
        ptr := ptr + [low];
        ptr := ptr + [DOT];
        ptr := ptr + [high];
        i := i - 1;
      }
      ptr := ptr[1..];
      ptr := ptr + V6DOMAIN;
  }

  // ----- name to address

  /** Reads the numbers of `name`, the last one first, from byte `i` on.  `place` counts the digits of
      the number being read. */
  function ReadV4(name: Text, i: nat, place: nat, v: seq<Octet>): Reading
    requires |v| == 4
    decreases |name|
  {
    if name == [] || i >= 4 then Found(V4(v)) else
    var dot := name[|name| - 1] == DOT;
    var rest := if dot then name[..|name| - 1] else name;
    var j := if dot then i + 1 else i;
    var digit := if dot then 0 else place;
    if rest == [] then Found(V4(v)) else
    var n := rest[|rest| - 1];
    if !(48 <= n <= 57) then Invalid
    else if j >= 4 || digit >= 3 then Outside
    else ReadV4(rest[..|rest| - 1], j, digit + 1, v[j := AddDigit(v[j], n, digit)])
  }

  /** The byte with the digit `n` added in place `digit`, in 8 bits. */
  function AddDigit(x: Octet, n: Octet, digit: nat): Octet
    requires 48 <= n <= 57 && digit < 3
  {
    (x as int + (n - 48) as int * [1, 10, 100][digit]) % 0x100
  }

  /** The value of a hexadecimal digit. */
  function Nibble(n: Octet): Option<nat> {
    var x: int := if n < 0x3A then n as int - 0x30 else if n < 0x47 then n as int - 0x37 else n as int - 0x57;
    if n >= 0x67 || (x + 0x100) % 0x100 > 0xF then None else Some((x + 0x100) % 0x100)
  }

  /** Reads the nibbles of `name`, the last one first, from byte `i` on; `low`: the low nibble of that
      byte is next. */
  function ReadV6(name: Text, i: nat, low: bool, v: seq<Octet>): Reading
    requires |v| == 16
    decreases |name|, 1
  {
    if name == [] || i >= 16 then Found(V6(v))
    else ReadV6Char(if name[|name| - 1] == DOT then name[..|name| - 1] else name, i, low, v)
  }

  /** What reading does with the last character, which is no dot to be dropped. */
  function ReadV6Char(rest: Text, i: nat, low: bool, v: seq<Octet>): Reading
    requires |v| == 16 && i < 16
    decreases |rest|, 0
  {
    if rest == [] then Found(V6(v)) else
    match Nibble(rest[|rest| - 1])
    case None => Invalid
    case Some(n) =>
      if low then ReadV6(rest[..|rest| - 1], i + 1, false, v[i := (v[i] as int + n) % 0x100])
      else ReadV6(rest[..|rest| - 1], i, true, v[i := (v[i] as int + n * 16) % 0x100])
  }

  function Zeros(n: nat): seq<Octet> { seq(n, _ => 0) }

  /** The search for a domain starts that many bytes before the end of the name; a name that is shorter
      than the longer domain is searched from before its start. */
  function PtrAddress(name: Text): Reading {
    if |name| < |V4DOMAIN| then Outside
    else if EndsWith(name, V4DOMAIN) then ReadV4(name[..|name| - |V4DOMAIN|], 0, 0, Zeros(4))
    else if EndsWith(name, V6DOMAIN) then ReadV6(name[..|name| - |V6DOMAIN|], 0, false, Zeros(16))
    else NotReverse
  }

  // ----- letter case

  /** The values of the hexadecimal digits in both cases; and the other characters that are taken for
      digits: the seven before `A`, and the ten from `W` on. */
  lemma NibbleReads(c: Octet)
    ensures 48 <= c <= 57 ==> Nibble(c) == Some(c - 48)
    ensures 65 <= c <= 70 ==> Nibble(c) == Nibble(c + 32) == Some(c - 55)
    ensures 58 <= c <= 64 ==> Nibble(c) == Some(c - 55)
    ensures 87 <= c <= 96 ==> Nibble(c) == Some(c - 87)
    ensures c < 48 || 71 <= c <= 86 || 103 <= c ==> Nibble(c).None?
  {
  }

  /** The letters `W` to `Z`, which are taken for digits, while `w` to `z` are not. */
  predicate CaseMatters(c: Octet) { 87 <= c <= 90 || 119 <= c <= 122 }

  /** A letter and the same letter in the other case. */
  predicate OtherCase(x: Octet, y: Octet) { (65 <= x <= 90 && y == x + 32) || (65 <= y <= 90 && x == y + 32) }

  lemma CaseMattersExactly(x: Octet)
    ensures (forall y: Octet :: OtherCase(x, y) ==> Nibble(x) == Nibble(y)) <==> !CaseMatters(x)
  {
    if 87 <= x <= 90 { assert OtherCase(x, x + 32); }
    if 119 <= x <= 122 { assert OtherCase(x, x - 32); }
  }

  /** Both characters are the same letter, in a case that does not matter. */
  predicate SameLetter(x: Octet, y: Octet) { OtherCase(x, y) && !CaseMatters(x) }

  predicate SameButForCase(x: Text, y: Text) {
    |x| == |y| && forall k :: 0 <= k < |x| ==> x[k] == y[k] || SameLetter(x[k], y[k])
  }

  lemma SameEnding(x: Text, y: Text, domain: Text)
    requires SameButForCase(x, y)
    ensures EndsWith(x, domain) == EndsWith(y, domain)
  {
    if |x| >= |domain| {
      var n := |x| - |domain|;
      forall k | 0 <= k < |domain| ensures Lower(x[n..][k]) == Lower(y[n..][k]) { SameChar(x[n + k], y[n + k]); }
    }
  }

  lemma SameChar(x: Octet, y: Octet)
    requires x == y || SameLetter(x, y)
    ensures Lower(x) == Lower(y) && Nibble(x) == Nibble(y) && (x == DOT <==> y == DOT)
    ensures 48 <= x <= 57 || 48 <= y <= 57 ==> x == y
  {
  }

  lemma SameLength(x: Text, y: Text)
    requires SameButForCase(x, y)
    ensures |x| == |y|
  {
  }

  lemma SameAt(x: Text, y: Text, k: nat)
    requires SameButForCase(x, y) && k < |x|
    ensures |x| == |y| && SameButForCase(x[..k], y[..k]) && Nibble(x[k]) == Nibble(y[k])
    ensures (x[k] == DOT <==> y[k] == DOT) && (48 <= x[k] <= 57 || 48 <= y[k] <= 57 ==> x[k] == y[k])
  {
    SameChar(x[k], y[k]);
  }

  /** One step of reading: `c` is the place of the digit that is read. */
  lemma V4Step(name: Text, i: nat, place: nat, v: seq<Octet>, c: int)
    requires |v| == 4 && name != [] && i < 4
    requires c == if name[|name| - 1] == DOT then |name| - 2 else |name| - 1
    ensures var dot := name[|name| - 1] == DOT;
            var j, digit := if dot then i + 1 else i, if dot then 0 else place;
            ReadV4(name, i, place, v)
              == if c < 0 then Found(V4(v))
                 else if !(48 <= name[c] <= 57) then Invalid
                 else if j >= 4 || digit >= 3 then Outside
                 else ReadV4(name[..c], j, digit + 1, v[j := AddDigit(v[j], name[c], digit)])
  {
    hide AddDigit;
    var k := |name| - 1;
    if name[k] == DOT && c >= 0 { assert name[..k][..k - 1] == name[..c]; }
  }

  lemma {:induction false} V4IgnoresCase(x: Text, y: Text, i: nat, place: nat, v: seq<Octet>)
    requires SameButForCase(x, y) && |v| == 4
    ensures ReadV4(x, i, place, v) == ReadV4(y, i, place, v)
    decreases |x|
  {
    SameLength(x, y);
    if x != [] && i < 4 {
      hide AddDigit, Nibble, SameButForCase, ReadV4;
      var k := |x| - 1;
      SameAt(x, y, k);
      var dot := x[k] == DOT;
      var c := if dot then k - 1 else k;
      V4Step(x, i, place, v, c);
      V4Step(y, i, place, v, c);
      if c >= 0 {
        SameAt(x, y, c);
        var j, digit := if dot then i + 1 else i, if dot then 0 else place;
        if 48 <= x[c] <= 57 && j < 4 && digit < 3 {
          V4IgnoresCase(x[..c], y[..c], j, digit + 1, v[j := AddDigit(v[j], x[c], digit)]);
        }
      }
    }
  }

  lemma {:induction false} V6IgnoresCase(x: Text, y: Text, i: nat, low: bool, v: seq<Octet>)
    requires SameButForCase(x, y) && |v| == 16
    ensures ReadV6(x, i, low, v) == ReadV6(y, i, low, v)
    decreases |x|
  {
    hide Nibble, SameButForCase;
    SameLength(x, y);
    if x != [] && i < 16 {
      var k := |x| - 1;
      SameAt(x, y, k);
      var c := if x[k] == DOT then k - 1 else k;
      if c >= 0 {
        SameAt(x, y, c);
        if x[k] == DOT { assert x[..k][..k - 1] == x[..k - 1] && y[..k][..k - 1] == y[..k - 1]; }
        if Nibble(x[c]).Some? {
          var n := Nibble(x[c]).value;
          if low {
            V6IgnoresCase(x[..c], y[..c], i + 1, false, v[i := (v[i] as int + n) % 0x100]);
          } else {
            V6IgnoresCase(x[..c], y[..c], i, true, v[i := (v[i] as int + n * 16) % 0x100]);
          }
        }
      }
    }
  }

  /** The letter case of a name, of its digits as well as of its domain, does not matter, but for the
      letters that should not be there. */
  lemma IgnoresCase(x: Text, y: Text)
    requires SameButForCase(x, y)
    ensures PtrAddress(x) == PtrAddress(y)
  {
    hide ReadV4, ReadV6, EndsWith, SameLetter;
    SameEnding(x, y, V4DOMAIN);
    SameEnding(x, y, V6DOMAIN);
    if |x| >= |V4DOMAIN| {
      V4IgnoresCase(x[..|x| - |V4DOMAIN|], y[..|y| - |V4DOMAIN|], 0, 0, Zeros(4));
      V6IgnoresCase(x[..|x| - |V6DOMAIN|], y[..|y| - |V6DOMAIN|], 0, false, Zeros(16));
    }
  }

  /** "WWWWW" before the IPv6 domain is an address, and "wwwww" is not. */
  lemma CaseForExample()
    ensures PtrAddress([87, 87, 87, 87, 87] + V6DOMAIN) == Found(V6(Zeros(16)))
    ensures PtrAddress([119, 119, 119, 119, 119] + V6DOMAIN) == Invalid
  {
    hide ReadV6, Zeros, EndsWith;
    var u, l: Text := [87, 87, 87, 87, 87], [119, 119, 119, 119, 119];
    DomainCut(u, V6DOMAIN);
    DomainCut(l, V6DOMAIN);
    NotV4(u);
    NotV4(l);
    NibbleReads(87);
    NibbleReads(119);
    ZeroRead(u);
    InvalidRead(l);
  }

  lemma InvalidRead(s: Text)
    requires s != [] && s[|s| - 1] != DOT && Nibble(s[|s| - 1]).None?
    ensures ReadV6(s, 0, false, Zeros(16)) == Invalid
  {
  }

  lemma OneZeroRead(pre: Text, i: nat, low: bool)
    requires i < 16
    ensures ReadV6(pre + [87], i, low, Zeros(16)) == ReadV6(pre, if low then i + 1 else i, !low, Zeros(16))
  {
    NibbleReads(87);
    assert (pre + [87])[..|pre|] == pre;
    assert Zeros(16)[i := 0] == Zeros(16);
  }

  lemma NothingRead6(i: nat, v: seq<Octet>)
    requires |v| == 16
    ensures ReadV6([], i, true, v) == Found(V6(v))
  {
  }

  lemma ZeroRead(s: Text)
    requires s == [87, 87, 87, 87, 87]
    ensures ReadV6(s, 0, false, Zeros(16)) == Found(V6(Zeros(16)))
  {
    hide ReadV6, Nibble;
    OneZeroRead([87, 87, 87, 87], 0, false);
    OneZeroRead([87, 87, 87], 0, true);
    OneZeroRead([87, 87], 1, false);
    OneZeroRead([87], 1, true);
    OneZeroRead([], 2, false);
    assert [] + [87] == [87] && [87] + [87] == [87, 87] && [87, 87] + [87] == [87, 87, 87];
    assert [87, 87, 87] + [87] == [87, 87, 87, 87] && [87, 87, 87, 87] + [87] == s;
    NothingRead6(2, Zeros(16));
  }

  // ----- the names on which the C code would leave its tables

  predicate IsDigit(c: Octet) { 48 <= c <= 57 }

  /** Numbers with single dots between them, or before the first and after the last. */
  predicate Dotty(s: Text) {
    && (forall k :: 0 <= k < |s| ==> IsDigit(s[k]) || s[k] == DOT)
    && (forall k :: 0 < k < |s| ==> s[k - 1] != DOT || s[k] != DOT)
  }

  function Dots(s: Text): nat { if s == [] then 0 else (if s[0] == DOT then 1 else 0) + Dots(s[1..]) }

  /** The number of digits that `s` begins with. */
  function Digits(s: Text): (n: nat)
    ensures n > 0 <==> s != [] && IsDigit(s[0])
  {
    if s == [] || !IsDigit(s[0]) then 0 else 1 + Digits(s[1..])
  }

  /** Up to its end `s` is made of numbers and single dots, and it begins with the fourth digit from the
      right of a number, or with a digit of the fifth number from the right. */
  predicate Spills(s: Text) { Dotty(s) && Digits(s) > 0 && (Digits(s) > 3 || Dots(s) > 3) }

  predicate SpillsSomewhere(s: Text) { exists k :: 0 <= k < |s| && Spills(s[k..]) }

  lemma PrependDotty(c: Octet, s: Text)
    ensures Dotty([c] + s) <==> Dotty(s) && (IsDigit(c) || c == DOT) && (s != [] ==> c != DOT || s[0] != DOT)
    ensures Dots([c] + s) == Dots(s) + if c == DOT then 1 else 0
    ensures Digits([c] + s) == if IsDigit(c) then 1 + Digits(s) else 0
  {
    var t := [c] + s;
    assert t[1..] == s;
    if Dotty(t) {
      forall k | 0 < k < |s| ensures s[k - 1] != DOT || s[k] != DOT { assert s[k - 1] == t[k] && s[k] == t[k + 1]; }
      forall k | 0 <= k < |s| ensures IsDigit(s[k]) || s[k] == DOT { assert s[k] == t[k + 1]; }
      if s != [] { assert t[1 - 1] != DOT || t[1] != DOT; }
    }
  }

  lemma {:induction false} NotDotty(s: Text, p: nat, k: nat)
    requires k <= p <= |s| && !Dotty(s[p..])
    ensures !Dotty(s[k..])
    decreases p - k
  {
    if k < p {
      NotDotty(s, p, k + 1);
      PrependAt(s, k);
    }
  }

  /** One step of reading the part of `s` before `p`, with its last character if that is a dot. */
  lemma ReadStep(s: Text, p: nat, i: nat, place: nat, v: seq<Octet>)
    requires 0 < p <= |s| && i < 4 && |v| == 4
    ensures var dot := s[p - 1] == DOT;
            var c, j, digit := if dot then p - 2 else p - 1, if dot then i + 1 else i, if dot then 0 else place;
            && (c < 0 ==> ReadV4(s[..p], i, place, v) == Found(V4(v)))
            && (c >= 0 && !IsDigit(s[c]) ==> ReadV4(s[..p], i, place, v) == Invalid)
            && (c >= 0 && IsDigit(s[c]) ==>
                  ReadV4(s[..p], i, place, v) ==
                    if j >= 4 || digit >= 3 then Outside
                    else ReadV4(s[..c], j, digit + 1, v[j := AddDigit(v[j], s[c], digit)]))
  {
    hide AddDigit;
    assert s[..p][..p - 1] == s[..p - 1];
    if p > 1 { assert s[..p - 1][..p - 2] == s[..p - 2]; }
  }

  lemma PrependAt(s: Text, k: nat)
    requires k < |s|
    ensures Dotty(s[k..]) <==>
              && Dotty(s[k + 1..]) && (IsDigit(s[k]) || s[k] == DOT)
              && (k + 1 < |s| ==> s[k] != DOT || s[k + 1] != DOT)
    ensures Dots(s[k..]) == Dots(s[k + 1..]) + if s[k] == DOT then 1 else 0
    ensures Digits(s[k..]) == if IsDigit(s[k]) then 1 + Digits(s[k + 1..]) else 0
  {
    hide Dotty, Dots, Digits;
    assert s[k..] == [s[k]] + s[k + 1..];
    PrependDotty(s[k], s[k + 1..]);
  }

  /** Reading the part of `s` before `p`, after the rest. */
  lemma {:induction false} OutsideFrom(s: Text, p: nat, v: seq<Octet>)
    requires p <= |s| && |v| == 4 && Dotty(s[p..]) && (p < |s| ==> IsDigit(s[p]))
    requires Dots(s[p..]) <= 3 && Digits(s[p..]) <= 3 && forall k :: p <= k < |s| ==> !Spills(s[k..])
    ensures ReadV4(s[..p], Dots(s[p..]), Digits(s[p..]), v) == Outside <==> SpillsSomewhere(s)
    decreases p
  {
    hide ReadV4, Dotty, Dots, Digits, AddDigit;
    if p == 0 {
      assert s[..p] == [];
      NothingRead(Dots(s[p..]), Digits(s[p..]), v);
    } else {
      var dot := s[p - 1] == DOT;
      var c := if dot then p - 2 else p - 1;
      ReadStep(s, p, Dots(s[p..]), Digits(s[p..]), v);
      PrependAt(s, p - 1);
      if c >= 0 {
        PrependAt(s, c);
        if !IsDigit(s[c]) {
          forall k | 0 <= k <= c ensures !Spills(s[k..]) { NotDotty(s, c, k); }
        } else if !Spills(s[c..]) {
          var i, place := Dots(s[c..]), if dot then 0 else Digits(s[p..]);
          OutsideFrom(s, c, v[i := AddDigit(v[i], s[c], place)]);
        }
      }
    }
  }

  lemma NothingRead(i: nat, place: nat, v: seq<Octet>)
    requires |v| == 4
    ensures ReadV4([], i, place, v) == Found(V4(v))
  {
  }

  /** The name is shorter than the IPv4 domain; or it is an IPv4 name with a fourth digit in one of the
      last four numbers, or with a fifth number, and all after that are numbers and single dots. */
  predicate LeavesTables(name: Text) {
    || |name| < |V4DOMAIN|
    || (EndsWith(name, V4DOMAIN) && SpillsSomewhere(name[..|name| - |V4DOMAIN|]))
  }

  /** The C code would leave the name or its tables on these names, and on no others. */
  lemma OutsideExactly(name: Text)
    ensures PtrAddress(name) == Outside <==> LeavesTables(name)
  {
    hide ReadV4, ReadV6, SpillsSomewhere;
    if |name| >= |V4DOMAIN| {
      var s := name[..|name| - |V4DOMAIN|];
      assert s[|s|..] == [] && s[..|s|] == s;
      if EndsWith(name, V4DOMAIN) {
        OutsideFrom(s, |s|, Zeros(4));
      } else if EndsWith(name, V6DOMAIN) {
        NeverOutside(name[..|name| - |V6DOMAIN|], 0, false, Zeros(16));
      }
    }
  }

  lemma {:induction false} NeverOutside(name: Text, i: nat, low: bool, v: seq<Octet>)
    requires |v| == 16
    ensures ReadV6(name, i, low, v) != Outside
    decreases |name|
  {
    hide Nibble;
    if name != [] && i < 16 {
      var rest := if name[|name| - 1] == DOT then name[..|name| - 1] else name;
      if rest != [] && Nibble(rest[|rest| - 1]).Some? {
        var n := Nibble(rest[|rest| - 1]).value;
        var left := rest[..|rest| - 1];
        if low {
          NeverOutside(left, i + 1, false, v[i := (v[i] as int + n) % 0x100]);
        } else {
          NeverOutside(left, i, true, v[i := (v[i] as int + n * 16) % 0x100]);
        }
      }
    }
  }

  /** "1024" and "1.2.3.4.5" */
  const LONGNUMBER: Text := [49, 48, 50, 52]
  const FIVENUMBERS: Text := [49, 46, 50, 46, 51, 46, 52, 46, 53]

  /** For example "1024.in-addr.arpa" and "1.2.3.4.5.in-addr.arpa". */
  lemma OutsideForExample()
    ensures PtrAddress(LONGNUMBER + V4DOMAIN) == Outside && PtrAddress(FIVENUMBERS + V4DOMAIN) == Outside
  {
    hide PtrAddress, EndsWith, SpillsSomewhere;
    DomainCut(LONGNUMBER, V4DOMAIN);
    DomainCut(FIVENUMBERS, V4DOMAIN);
    OutsideExactly(LONGNUMBER + V4DOMAIN);
    OutsideExactly(FIVENUMBERS + V4DOMAIN);
    ExamplesSpill();
  }

  lemma ExamplesSpill()
    ensures SpillsSomewhere(LONGNUMBER) && SpillsSomewhere(FIVENUMBERS)
  {
    LongSpills();
    FiveSpill();
  }

  lemma LongSpills()
    ensures SpillsSomewhere(LONGNUMBER)
  {
    hide Dotty, Dots, Digits;
    var l := LONGNUMBER;
    NothingDotty(l[4..]);
    PrependAt(l, 3);
    PrependAt(l, 2);
    PrependAt(l, 1);
    PrependAt(l, 0);
    assert Spills(l[0..]);
  }

  lemma FiveSpill()
    ensures SpillsSomewhere(FIVENUMBERS)
  {
    hide Dotty, Dots, Digits;
    var f := FIVENUMBERS;
    NothingDotty(f[9..]);
    PrependAt(f, 8);
    PrependAt(f, 7);
    PrependAt(f, 6);
    PrependAt(f, 5);
    PrependAt(f, 4);
    PrependAt(f, 3);
    PrependAt(f, 2);
    PrependAt(f, 1);
    PrependAt(f, 0);
    assert Spills(f[0..]);
  }

  lemma NothingDotty(s: Text)
    requires s == []
    ensures Dotty(s)
  {
  }

  method PtrToIp(name: Text) returns (r: Reading)
    ensures r == PtrAddress(name)
    ensures r == Outside <==> LeavesTables(name)
  {
    OutsideExactly(name);
    if |name| < |V4DOMAIN| {
      r := Outside;
    } else if EndsWith(name, V4DOMAIN) {
      r := ParseV4(name[..|name| - |V4DOMAIN|]);
    } else if EndsWith(name, V6DOMAIN) {
      r := ParseV6(name[..|name| - |V6DOMAIN|]);
    } else {
      r := NotReverse;
    }
  }

  method ParseV4(s: Text) returns (r: Reading)
    ensures r == ReadV4(s, 0, 0, Zeros(4))
  {
    var v: seq<Octet> := Zeros(4);
    var place, i, p := 0, 0, |s| - 1;
    assert s[..p + 1] == s;
    while p >= 0 && i < 4
      invariant -1 <= p < |s| && |v| == 4 && i <= 4
      invariant ReadV4(s, 0, 0, Zeros(4)) == ReadV4(s[..p + 1], i, place, v)
    {
      assert s[..p + 1][..p] == s[..p];
      if s[p] == DOT {
        place := 0;
        p := p - 1;
        i := i + 1;
      }
      if p < 0 { break; }
      assert s[..p + 1][..p] == s[..p];
      var n := s[p];
      if !(48 <= n <= 57) { return Invalid; }
      if i >= 4 || place >= 3 { return Outside; }
      v := v[i := AddDigit(v[i], n, place)];
      place := place + 1;
      p := p - 1;
    }
    r := Found(V4(v));
  }

  method ParseV6(s: Text) returns (r: Reading)
    ensures r == ReadV6(s, 0, false, Zeros(16))
  {
    hide Nibble;
    var v: seq<Octet> := Zeros(16);
    var low, i, p := false, 0, |s| - 1;
    assert s[..p + 1] == s;
    while p >= 0 && i < 16
      invariant -1 <= p < |s| && |v| == 16 && i <= 16
      invariant ReadV6(s, 0, false, Zeros(16)) == ReadV6(s[..p + 1], i, low, v)
    {
      assert s[..p + 1][..p] == s[..p];
      if s[p] == DOT { p := p - 1; }
      if p < 0 { break; }
      assert s[..p + 1][..p] == s[..p];
      var n := Nibble(s[p]);
      if n.None? { return Invalid; }
      if low {
        v := v[i := (v[i] as int + n.value) % 0x100];
        low, i := false, i + 1;
      } else {
        v := v[i := (v[i] as int + n.value * 16) % 0x100];
        low := true;
      }
      p := p - 1;
    }
    r := Found(V6(v));
  }

  // ----- round trip

  lemma DigitRead(pre: Text, n: Octet, i: nat, place: nat, v: seq<Octet>)
    requires |v| == 4 && i < 4 && place < 3 && 48 <= n <= 57
    ensures ReadV4(pre + [n], i, place, v) == ReadV4(pre, i, place + 1, v[i := AddDigit(v[i], n, place)])
  {
    var s := pre + [n];
    assert s[..|s| - 1] == pre;
  }

  lemma DecimalRead(pre: Text, n: Octet, i: nat, v: seq<Octet>)
    requires |v| == 4 && i < 4 && v[i] == 0
    ensures ReadV4(pre + Decimal(n), i, 0, v) == ReadV4(pre, i, |Decimal(n)|, v[i := n])
  {
    hide ReadV4;
    if n < 10 {
      DigitRead(pre, 48 + n, i, 0, v);
    } else if n < 100 {
      TwoDigits(pre, n, i, v);
    } else {
      ThreeDigits(pre, n, i, v);
    }
  }

  /** The digits of a byte add up to it, from the last one on. */
  lemma DigitsAdd(n: Octet)
    ensures AddDigit(0, 48 + n % 10, 0) == n % 10
    ensures n < 100 ==> AddDigit(n % 10, 48 + n / 10, 1) == n
    ensures AddDigit(n % 10, 48 + n / 10 % 10, 1) == n % 100
    ensures AddDigit(n % 100, 48 + n / 100, 2) == n
  {
    hide AddDigit;
    DigitsOf(n);
    DigitAdded(0, n % 10, 0);
    if n < 100 { DigitAdded(n % 10, n / 10, 1); }
    DigitAdded(n % 10, n / 10 % 10, 1);
    DigitAdded(n % 100, n / 100, 2);
  }

  lemma DigitsOf(n: nat)
    ensures n == 100 * (n / 100) + n % 100 == 10 * (n / 10) + n % 10
    ensures n % 100 == 10 * (n / 10 % 10) + n % 10
  {
    assert n / 10 == 10 * (n / 10 / 10) + n / 10 % 10;
    assert n / 10 / 10 == n / 100;
  }

  lemma DigitAdded(x: Octet, d: nat, digit: nat)
    requires d < 10 && digit < 3
    ensures digit == 0 && x as int + d < 0x100 ==> AddDigit(x, 48 + d, digit) == x as int + d
    ensures digit == 1 && x as int + 10 * d < 0x100 ==> AddDigit(x, 48 + d, digit) == x as int + 10 * d
    ensures digit == 2 && x as int + 100 * d < 0x100 ==> AddDigit(x, 48 + d, digit) == x as int + 100 * d
  {
  }

  lemma TwoDigits(pre: Text, n: Octet, i: nat, v: seq<Octet>)
    requires |v| == 4 && i < 4 && v[i] == 0 && 10 <= n < 100
    ensures ReadV4(pre + [48 + n / 10, 48 + n % 10], i, 0, v) == ReadV4(pre, i, 2, v[i := n])
  {
    hide ReadV4, AddDigit;
    DigitsAdd(n);
    var d0, d1: Octet := 48 + n / 10, 48 + n % 10;
    assert pre + [d0, d1] == pre + [d0] + [d1];
    DigitRead(pre + [d0], d1, i, 0, v);
    DigitRead(pre, d0, i, 1, v[i := n % 10]);
    assert v[i := n % 10][i := n] == v[i := n];
  }

  lemma ThreeDigits(pre: Text, n: Octet, i: nat, v: seq<Octet>)
    requires |v| == 4 && i < 4 && v[i] == 0 && 100 <= n
    ensures ReadV4(pre + [48 + n / 100, 48 + n / 10 % 10, 48 + n % 10], i, 0, v) == ReadV4(pre, i, 3, v[i := n])
  {
    hide ReadV4, AddDigit;
    DigitsAdd(n);
    var d0, d1, d2: Octet := 48 + n / 100, 48 + n / 10 % 10, 48 + n % 10;
    assert pre + [d0, d1, d2] == pre + [d0] + [d1] + [d2];
    DigitRead(pre + [d0] + [d1], d2, i, 0, v);
    DigitRead(pre + [d0], d1, i, 1, v[i := n % 10]);
    assert v[i := n % 10][i := n % 100] == v[i := n % 100];
    DigitRead(pre, d0, i, 2, v[i := n % 100]);
    assert v[i := n % 100][i := n] == v[i := n];
  }

  lemma DotRead(pre: Text, i: nat, place: nat, v: seq<Octet>)
    requires |v| == 4 && i < 3 && pre != [] && pre[|pre| - 1] != DOT
    ensures ReadV4(pre + [DOT], i, place, v) == ReadV4(pre, i + 1, 0, v)
  {
    var s := pre + [DOT];
    assert s[..|s| - 1] == pre;
  }

  lemma NumberBeforeDot(pre: Text, n: Octet, i: nat, place: nat, v: seq<Octet>)
    requires |v| == 4 && i < 3 && v[i + 1] == 0
    ensures ReadV4(pre + Decimal(n) + [DOT], i, place, v) == ReadV4(pre, i + 1, |Decimal(n)|, v[i + 1 := n])
  {
    hide ReadV4, Decimal;
    var s := pre + Decimal(n);
    assert s[|s| - 1] in Decimal(n);
    DotRead(s, i, place, v);
    DecimalRead(pre, n, i + 1, v);
  }

  lemma V4RoundTrip(v: seq<Octet>)
    requires |v| == 4
    ensures var text := Decimal(v[3]) + [DOT] + Decimal(v[2]) + [DOT] + Decimal(v[1]) + [DOT] + Decimal(v[0]);
            ReadV4(text, 0, 0, Zeros(4)) == Found(V4(v))
  {
    hide Decimal;
    var t2 := [] + Decimal(v[3]) + [DOT];
    var t1 := t2 + Decimal(v[2]) + [DOT];
    var t0 := t1 + Decimal(v[1]) + [DOT];
    assert [] + Decimal(v[3]) == Decimal(v[3]);
    DecimalRead(t0, v[0], 0, Zeros(4));
    NumberBeforeDot(t1, v[1], 0, |Decimal(v[0])|, [v[0], 0, 0, 0]);
    NumberBeforeDot(t2, v[2], 1, |Decimal(v[1])|, [v[0], v[1], 0, 0]);
    NumberBeforeDot([], v[3], 2, |Decimal(v[2])|, [v[0], v[1], v[2], 0]);
    assert Zeros(4)[0 := v[0]] == [v[0], 0, 0, 0];
    assert [v[0], 0, 0, 0][1 := v[1]] == [v[0], v[1], 0, 0];
    assert [v[0], v[1], 0, 0][2 := v[2]] == [v[0], v[1], v[2], 0];
    assert [v[0], v[1], v[2], 0][3 := v[3]] == v;
  }

  lemma NibbleOfDigit(n: nat)
    requires n < 16
    ensures Nibble(HexDigit(n)) == Some(n)
  {
  }

  lemma HighRead(pre: Text, n: nat, i: nat, v: seq<Octet>)
    requires |v| == 16 && i < 16 && n < 16 && v[i] == 0
    ensures ReadV6(pre + [HexDigit(n)], i, false, v) == ReadV6(pre, i, true, v[i := n * 16])
  {
    var s := pre + [HexDigit(n)];
    assert s[..|s| - 1] == pre;
    NibbleOfDigit(n);
  }

  lemma LowRead(pre: Text, n: nat, i: nat, v: seq<Octet>)
    requires |v| == 16 && i < 16 && n < 16 && v[i] as int + n < 0x100
    ensures ReadV6(pre + [HexDigit(n)] + [DOT], i, true, v) == ReadV6(pre, i + 1, false, v[i := v[i] as int + n])
  {
    var s := pre + [HexDigit(n)];
    assert (s + [DOT])[..|s|] == s;
    assert s[..|s| - 1] == pre;
    NibbleOfDigit(n);
  }

  lemma DotDropped(pre: Text, i: nat, v: seq<Octet>)
    requires |v| == 16 && i < 16 && pre != [] && pre[|pre| - 1] != DOT
    ensures ReadV6(pre + [DOT], i, false, v) == ReadV6(pre, i, false, v)
  {
    assert (pre + [DOT])[..|pre|] == pre;
  }

  /** Bytes `k` and up are still to be read. */
  lemma {:induction false} NibblesRead(a: seq<Octet>, k: nat, v: seq<Octet>)
    requires |a| == |v| == 16 && k < 16
    requires forall j :: 0 <= j < 16 ==> v[j] == if j < k then a[j] else 0
    ensures ReadV6(Nibbles(a, k)[1..], k, false, v) == Found(V6(a))
    decreases 16 - k
  {
    hide ReadV6, HexDigit;
    var high, low := a[k] / 16, a[k] % 16;
    var before := Nibbles(a, k + 1);
    var pre := if k == 15 then [] else before[1..] + [DOT];
    var w, x := v[k := high * 16], v[k := a[k]];
    assert Nibbles(a, k)[1..] == pre + [HexDigit(low)] + [DOT] + [HexDigit(high)];
    HighRead(pre + [HexDigit(low)] + [DOT], high, k, v);
    LowRead(pre, low, k, w);
    assert w[k := w[k] as int + low] == x;
    if k == 15 {
      assert x == a;
      NothingLeft(x);
    } else {
      DotDropped(before[1..], k + 1, x);
      NibblesRead(a, k + 1, x);
    }
  }

  lemma NothingLeft(v: seq<Octet>)
    requires |v| == 16
    ensures ReadV6([], 16, false, v) == Found(V6(v))
  {
  }

  /** Every address is read back from its reverse name (section 3.5 of RFC 1035, section 2.5 of
      RFC 3596). */
  lemma PtrRoundTrip(a: Address)
    requires ValidAddress(a)
    ensures PtrAddress(PtrName(a)) == Found(a)
  {
    hide ReadV4, ReadV6, Decimal;
    match a
    case V4(v) =>
      var digits := Decimal(v[3]) + [DOT] + Decimal(v[2]) + [DOT] + Decimal(v[1]) + [DOT] + Decimal(v[0]);
      DomainCut(digits, V4DOMAIN);
      V4RoundTrip(v);
    case V6(v) =>
      DomainCut(Nibbles(v, 0)[1..], V6DOMAIN);
      NotV4(Nibbles(v, 0)[1..]);
      NibblesRead(v, 0, Zeros(16));
  }

  lemma DomainCut(pre: Text, domain: Text)
    ensures EndsWith(pre + domain, domain) && (pre + domain)[..|pre|] == pre
  {
    assert (pre + domain)[|pre|..] == domain;
  }

  lemma NotV4(pre: Text)
    ensures !EndsWith(pre + V6DOMAIN, V4DOMAIN)
  {
    var name := pre + V6DOMAIN;
    if |name| >= |V4DOMAIN| {
      assert name[|name| - 13..][7] == name[|name| - 6] == V6DOMAIN[3];
    }
  }

  // ----- in bytes

  function Chars(s: string): Text { seq(|s|, k requires 0 <= k < |s| => s[k] as int % 0x100) }

  /** The domains, and the reverse names of 1.2.3.4 and of an address in hexadecimal digits. */
  lemma NamesInChars()
    ensures V4DOMAIN == Chars(".in-addr.arpa") && V6DOMAIN == Chars(".ip6.arpa")
    ensures PtrName(V4([1, 20, 103, 254])) == Chars("254.103.20.1") + V4DOMAIN
    ensures Nibbles([0x2f, 0x01, 0xab], 0) == Chars(".b.a.1.0.f.2")
  {
    V4Chars();
    NibbleChars();
  }

  lemma V4Chars()
    ensures PtrName(V4([1, 20, 103, 254])) == Chars("254.103.20.1") + V4DOMAIN
  {
    hide Decimal;
    DecimalChars();
    assert Chars("254") + [DOT] + Chars("103") + [DOT] + Chars("20") + [DOT] + Chars("1") == Chars("254.103.20.1");
  }

  lemma DecimalChars()
    ensures Decimal(254) == Chars("254") && Decimal(103) == Chars("103")
    ensures Decimal(20) == Chars("20") && Decimal(1) == Chars("1")
  {
  }

  lemma NibbleChars()
    ensures Nibbles([0x2f, 0x01, 0xab], 0) == Chars(".b.a.1.0.f.2")
  {
    assert Nibbles([0x2f, 0x01, 0xab], 2) == Chars(".b.a");
    assert Nibbles([0x2f, 0x01, 0xab], 1) == Chars(".b.a.1.0");
  }

  /** A reverse request, byte by byte (section 4.1 of RFC 1035): one query, recursion desired, for a
      pointer record of the Internet class. */
  lemma ReverseRequestLayout(id: Word, a: Address)
    requires ValidAddress(a)
    ensures ValidLabels(PtrLabels(a))
    ensures RequestBytes(id, PtrName(a), PTR) ==
              [id / 0x100, id % 0x100, 0x01, 0x00, 0x00, 0x01, 0x00, 0x00, 0x00, 0x00, 0x00, 0x00]
              + Encode(PtrLabels(a)) + [0x00, 0x00, 0x0c, 0x00, 0x01]
  {
    hide PtrLabels, PtrName, Dotted, DropDot, Encode, NameBytes;
    PtrLabelsValid(a);
    RequestLayout(id, PtrLabels(a), PTR);
  }

  // ----- reverse requests

  const PTR := 12

  function NibbleLabels(v: seq<Octet>, k: nat): Labels
    requires k <= |v|
    decreases |v| - k
  {
    if k == |v| then [] else NibbleLabels(v, k + 1) + [[HexDigit(v[k] % 16)], [HexDigit(v[k] / 16)]]
  }

  /** The labels of a reverse name: "in-addr", "arpa" or "ip6", "arpa" after those of the address. */
  function PtrLabels(a: Address): Labels
    requires ValidAddress(a)
  {
    match a
    case V4(v) => [Decimal(v[3]), Decimal(v[2]), Decimal(v[1]), Decimal(v[0]), V4DOMAIN[1..8], V4DOMAIN[9..]]
    case V6(v) => NibbleLabels(v, 0) + [V6DOMAIN[1..4], V6DOMAIN[5..]]
  }

  lemma {:induction false} DottedConcat(x: Labels, y: Labels)
    ensures Dotted(x + y) == Dotted(x) + Dotted(y)
  {
    if x == [] {
      assert x + y == y;
    } else {
      assert (x + y)[1..] == x[1..] + y;
      DottedConcat(x[1..], y);
    }
  }

  lemma DottedTwo(l: Text, m: Text)
    ensures Dotted([l, m]) == l + [DOT] + m + [DOT]
  {
    assert [l, m][1..] == [m] && [m][1..] == [];
    assert Dotted([m]) == m + [DOT];
  }

  lemma {:induction false} NibbleLabelsDotted(v: seq<Octet>, k: nat)
    requires k <= |v|
    ensures [DOT] + Dotted(NibbleLabels(v, k)) == Nibbles(v, k) + [DOT]
    ensures ValidLabels(NibbleLabels(v, k)) && |Dotted(NibbleLabels(v, k))| == 4 * (|v| - k)
    decreases |v| - k
  {
    hide HexDigit, Dotted;
    if k == |v| {
      assert Dotted([]) == [] by { DottedNone(); }
    } else {
      NibbleLabelsDotted(v, k + 1);
      var low, high: Text := [HexDigit(v[k] % 16)], [HexDigit(v[k] / 16)];
      DottedConcat(NibbleLabels(v, k + 1), [low, high]);
      DottedTwo(low, high);
      var d, n := Dotted(NibbleLabels(v, k + 1)), Nibbles(v, k + 1);
      assert [DOT] + (d + (low + [DOT] + high + [DOT])) == ([DOT] + d) + low + [DOT] + high + [DOT];
      assert Nibbles(v, k) + [DOT] == (n + [DOT]) + low + [DOT] + high + [DOT];
    }
  }

  lemma DottedNone()
    ensures Dotted([]) == []
  {
  }

  lemma V4LabelsDotted(v: seq<Octet>)
    requires |v| == 4
    ensures Dotted(PtrLabels(V4(v))) == PtrName(V4(v)) + [DOT]
    ensures |Dotted(PtrLabels(V4(v)))| < NAME_MAX
  {
    hide Decimal, Dotted;
    var labels := PtrLabels(V4(v));
    assert labels == [Decimal(v[3]), Decimal(v[2])]
        + ([Decimal(v[1]), Decimal(v[0])] + [V4DOMAIN[1..8], V4DOMAIN[9..]]);
    DottedConcat([Decimal(v[3]), Decimal(v[2])], [Decimal(v[1]), Decimal(v[0])] + [V4DOMAIN[1..8], V4DOMAIN[9..]]);
    DottedConcat([Decimal(v[1]), Decimal(v[0])], [V4DOMAIN[1..8], V4DOMAIN[9..]]);
    DottedTwo(Decimal(v[3]), Decimal(v[2]));
    DottedTwo(Decimal(v[1]), Decimal(v[0]));
    DottedTwo(V4DOMAIN[1..8], V4DOMAIN[9..]);
    assert [DOT] + V4DOMAIN[1..8] + [DOT] + V4DOMAIN[9..] == V4DOMAIN;
  }

  lemma V6LabelsDotted(v: seq<Octet>)
    requires |v| == 16
    ensures Dotted(PtrLabels(V6(v))) == PtrName(V6(v)) + [DOT]
    ensures |Dotted(PtrLabels(V6(v)))| < NAME_MAX
  {
    hide Dotted, NibbleLabels, Nibbles;
    NibbleLabelsDotted(v, 0);
    DottedConcat(NibbleLabels(v, 0), [V6DOMAIN[1..4], V6DOMAIN[5..]]);
    DottedTwo(V6DOMAIN[1..4], V6DOMAIN[5..]);
    V6DomainParts();
    SomeNibbles(v);
    DropFirst(Dotted(NibbleLabels(v, 0)), Nibbles(v, 0));
    JoinName(Nibbles(v, 0)[1..], V6DOMAIN[1..4], V6DOMAIN[5..]);
  }

  lemma SomeNibbles(v: seq<Octet>)
    requires |v| == 16
    ensures Nibbles(v, 0) != []
  {
  }

  lemma JoinName(first: Text, l: Text, m: Text)
    ensures first + [DOT] + (l + [DOT] + m + [DOT]) == first + ([DOT] + l + [DOT] + m) + [DOT]
  {
  }

  lemma V6DomainParts()
    ensures [DOT] + V6DOMAIN[1..4] + [DOT] + V6DOMAIN[5..] == V6DOMAIN
  {
  }

  lemma DropFirst(d: Text, n: Text)
    requires [DOT] + d == n + [DOT] && n != []
    ensures d == n[1..] + [DOT]
  {
    assert d == ([DOT] + d)[1..];
  }

  lemma PtrLabelsValid(a: Address)
    requires ValidAddress(a)
    ensures ValidLabels(PtrLabels(a)) && PtrLabels(a) != []
    ensures DropDot(Dotted(PtrLabels(a))) == PtrName(a) && |Dotted(PtrLabels(a))| < NAME_MAX
  {
    hide Dotted, Nibbles, Decimal;
    match a
    case V4(v) => V4LabelsDotted(v);
    case V6(v) => V6LabelsDotted(v); NibbleLabelsDotted(v, 0);
  }

  method BuildReverseRequest(id: Word, a: Address, buf: array<Octet>, maxlen: nat) returns (ret: nat)
    requires ValidAddress(a) && maxlen <= buf.Length
    modifies buf
    ensures ret != 0 <==> maxlen > DATA + |PtrName(a)| + 1 && maxlen >= |RequestBytes(id, PtrName(a), PTR)|
    ensures ret != 0 ==>
              && ret == |RequestBytes(id, PtrName(a), PTR)|
              && buf[..] == Overwrite(old(buf[..]), 0, RequestBytes(id, PtrName(a), PTR))
  {
    var name := IpToPtr(a);
    ret := BuildSimpleRequest(id, name, PTR, buf, maxlen);
  }

  /** A reverse request decodes to its id and its address. */
  lemma ReverseRequestDecodes<A>(answerAt: AnswerReader<A>, b: Buffer, id: Word, a: Address)
    requires ValidAddress(a)
    requires var bytes := RequestBytes(id, PtrName(a), PTR); Placed(b, 0, bytes)
    ensures var bytes := RequestBytes(id, PtrName(a), PTR);
            var r := PacketAt(answerAt, b, |bytes|);
            && r.Some? && r.value.1 == |bytes|
            && r.value.0.id == id && r.value.0.answers == [] && |r.value.0.queries| == 1
            && r.value.0.queries[0].rtype == PTR && PtrAddress(r.value.0.queries[0].name) == Found(a)
  {
    hide Dotted, DropDot, PtrLabels, PtrName, PtrAddress, RequestBytes, PacketAt;
    PtrLabelsValid(a);
    RequestReadsBack(answerAt, b, id, PtrLabels(a), PTR);
    PtrRoundTrip(a);
  }
}
