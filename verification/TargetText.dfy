module TargetText {
  /**
   What a target specification denotes, said without the parser: four octets, each `*` or a list of
   ranges of which either end may be left open.  The parser accepts exactly their texts.
   */

  import opened Peg
  import opened IPv4Ranges
  import opened RangeText

  // ----- specifications

  type Digits = s: string | forall k :: 0 <= k < |s| ==> IsDigit(s[k])

  /** `lower`: the digits of the lower end, none if it is open; `upper`: those of the upper end, none if
      it is open, for a range with a dash. */
  datatype Item = Item(lower: Digits, upper: Option<Digits>)

  datatype OctetSpec = Star | Items(items: seq<Item>)

  function Lower(t: Item): nat { if t.lower == "" then 0 else Number(t.lower) }

  function Upper(t: Item): nat {
    if t.upper.None? then Number(t.lower) else if t.upper.value == "" then 255 else Number(t.upper.value)
  }

  /** A number, or a range with a dash; numbers up to 255, in order. */
  predicate ValidItem(t: Item) { (t.upper.None? ==> t.lower != "") && Lower(t) <= Upper(t) <= 255 }

  predicate ValidOctet(o: OctetSpec) { o.Items? ==> o.items != [] && forall t :: t in o.items ==> ValidItem(t) }

  function ItemText(t: Item): string { t.lower + if t.upper.None? then "" else "-" + t.upper.value }

  function ItemsText(items: seq<Item>): string
    requires items != []
  {
    ItemText(items[0]) + if |items| == 1 then "" else "," + ItemsText(items[1..])
  }

  function OctetText(o: OctetSpec): string
    requires ValidOctet(o)
  {
    if o.Star? then "*" else ItemsText(o.items)
  }

  /** The octets that `o` denotes. */
  predicate Denotes(o: OctetSpec, k: nat) {
    o.Star? || exists j :: 0 <= j < |o.items| && Lower(o.items[j]) <= k <= Upper(o.items[j])
  }

  /** `s` is the text of four octets that denote exactly the sets of `b`. */
  ghost predicate Specifies(s: string, b: Block) {
    exists o0, o1, o2, o3 ::
      && ValidOctet(o0) && ValidOctet(o1) && ValidOctet(o2) && ValidOctet(o3)
      && s == OctetText(o0) + "." + OctetText(o1) + "." + OctetText(o2) + "." + OctetText(o3)
      && SetOf(o0, b[0]) && SetOf(o1, b[1]) && SetOf(o2, b[2]) && SetOf(o3, b[3])
  }

  predicate SetOf(o: OctetSpec, v: OctetSet) {
    forall k :: 0 <= k < 256 ==> (v[k] <==> Denotes(o, k))
  }

  // ----- one range

  /** What the parser makes of a number, from its digits. */
  lemma NumberRead(d: Digits, rest: string)
    requires d != "" && EndsNumber(rest)
    ensures ParseRange(d + rest) == if Number(d) > 255 then None else Some(Range(Number(d), Number(d), rest))
  {
    hide Number, DigitRun;
    RunOfDigits(d, rest);
    Cut(d, rest);
  }

  /** What it makes of a range with a dash. */
  lemma DashRead(d: Digits, u: Digits, rest: string)
    requires rest == "" || !IsDigit(rest[0])
    ensures var start := if d == "" then 0 else Number(d);
            var end := if u == "" then 255 else Number(u);
            ParseRange(d + ("-" + (u + rest)))
              == if start > 255 || end > 255 || end < start then None else Some(Range(start, end, rest))
  {
    hide Number, DigitRun;
    NoNumber();
    var more := "-" + (u + rest);
    RunOfDigits(d, more);
    RunOfDigits(u, rest);
    Cut(d, more);
    Cut("-", u + rest);
    Cut(u, rest);
  }

  /** The range that is read at the start of the text of an item. */
  lemma ItemRead(t: Item, rest: string)
    requires ValidItem(t) && EndsNumber(rest)
    ensures ParseRange(ItemText(t) + rest) == Some(Range(Lower(t), Upper(t), rest))
  {
    hide Number, ParseRange;
    if t.upper.None? {
      assert ItemText(t) + rest == t.lower + rest;
      NumberRead(t.lower, rest);
    } else {
      var u := t.upper.value;
      assert ItemText(t) + rest == t.lower + ("-" + (u + rest));
      DashRead(t.lower, u, rest);
    }
  }

  lemma RangeIsItem(s: string) returns (t: Item)
    requires ParseRange(s).Some?
    ensures var r := ParseRange(s).value;
            ValidItem(t) && s == ItemText(t) + r.tail && r.start == Lower(t) && r.end == Upper(t)
  {
    hide Number;
    var n := DigitRun(s);
    var d, rest := s[..n], s[n..];
    assert s == d + rest;
    hide DigitRun;
    if Head(rest) == '-' {
      t := DashItem(d, rest);
    } else {
      t := Item(d, None);
      assert ItemText(t) + rest == d + rest;
    }
  }

  lemma DashItem(d: Digits, rest: string) returns (t: Item)
    requires Head(rest) == '-' && ParseRange(d + rest).Some?
    ensures var r := ParseRange(d + rest).value;
            ValidItem(t) && d + rest == ItemText(t) + r.tail && r.start == Lower(t) && r.end == Upper(t)
  {
    hide Number, ParseRange, ItemText;
    var digits, tail := AfterDash(rest);
    DashRead(d, digits, tail);
    t := Item(d, Some(digits));
    DashText(d, digits, tail);
  }

  lemma AfterDash(rest: string) returns (digits: Digits, tail: string)
    requires Head(rest) == '-'
    ensures rest == "-" + (digits + tail) && (tail == "" || !IsDigit(tail[0]))
  {
    var u := rest[1..];
    var k := DigitRun(u);
    digits, tail := u[..k], u[k..];
    RunEnds(u);
    assert digits + tail == u;
    assert rest == "-" + u;
  }

  lemma DashText(d: Digits, u: Digits, tail: string)
    ensures ItemText(Item(d, Some(u))) + tail == d + ("-" + (u + tail))
  {
    assert d + ("-" + u) + tail == d + ("-" + (u + tail));
  }

  lemma {:induction false} RunEnds(s: string)
    ensures var n := DigitRun(s); s[n..] == "" || !IsDigit(s[n..][0])
  {
    if s != [] && IsDigit(s[0]) {
      RunEnds(s[1..]);
      assert s[1..][DigitRun(s[1..])..] == s[DigitRun(s)..];
    }
  }

  // ----- the ranges of an octet

  predicate Covered(items: seq<Item>, k: nat) {
    exists j :: 0 <= j < |items| && Lower(items[j]) <= k <= Upper(items[j])
  }

  lemma CoveredFirst(items: seq<Item>, k: nat)
    requires items != []
    ensures Covered(items, k) <==> Lower(items[0]) <= k <= Upper(items[0]) || Covered(items[1..], k)
  {
    if Covered(items, k) {
      var j :| 0 <= j < |items| && Lower(items[j]) <= k <= Upper(items[j]);
      if j > 0 { assert items[1..][j - 1] == items[j]; }
    }
    if Covered(items[1..], k) {
      var j :| 0 <= j < |items[1..]| && Lower(items[1..][j]) <= k <= Upper(items[1..][j]);
      assert items[j + 1] == items[1..][j];
    }
  }

  /** `w` is `v` with the octets of the items added. */
  predicate Adds(v: OctetSet, items: seq<Item>, w: OctetSet) {
    forall k :: 0 <= k < 256 ==> (w[k] <==> v[k] || Covered(items, k))
  }

  lemma AddsFirst(v: OctetSet, items: seq<Item>, w: OctetSet)
    requires items != []
    requires Adds(Fill(v, Lower(items[0]), Upper(items[0])), items[1..], w)
    ensures Adds(v, items, w)
  {
    hide Covered, Lower, Upper;
    forall k | 0 <= k < 256 ensures w[k] <==> v[k] || Covered(items, k) { CoveredFirst(items, k); }
  }

  lemma AddsNone(v: OctetSet)
    ensures Adds(v, [], v)
  {
  }

  lemma {:induction false} ItemsRead(items: seq<Item>, rest: string, v: OctetSet) returns (w: OctetSet)
    requires items != [] && (forall t :: t in items ==> ValidItem(t)) && EndsOctet(rest)
    ensures ParseOctetRanges(ItemsText(items) + rest, v) == Some((w, rest)) && Adds(v, items, w)
    decreases |items|
  {
    hide ParseRange, ItemText, Fill, Adds, Lower, Upper, ValidItem;
    var t := items[0];
    var u := Fill(v, Lower(t), Upper(t));
    if |items| == 1 {
      assert ItemsText(items) + rest == ItemText(t) + rest;
      ItemRead(t, rest);
      w := u;
      assert items[1..] == [];
      AddsNone(u);
      AddsFirst(v, items, w);
    } else {
      var more := "," + (ItemsText(items[1..]) + rest);
      assert ItemsText(items) + rest == ItemText(t) + more;
      ItemRead(t, more);
      assert more[1..] == ItemsText(items[1..]) + rest;
      w := ItemsRead(items[1..], rest, u);
      AddsFirst(v, items, w);
    }
  }

  lemma OneItemText(t: Item)
    ensures ItemsText([t]) == ItemText(t)
  {
  }

  lemma MoreItemsText(t: Item, more: seq<Item>, rest: string)
    requires more != []
    ensures ItemText(t) + ("," + (ItemsText(more) + rest)) == ItemsText([t] + more) + rest
  {
    hide ItemText;
    assert ([t] + more)[1..] == more;
    assert ItemsText([t] + more) == ItemText(t) + ("," + ItemsText(more));
  }

  lemma {:induction false} RangesAreItems(s: string, v: OctetSet) returns (items: seq<Item>)
    requires ParseOctetRanges(s, v).Some?
    ensures items != [] && forall t :: t in items ==> ValidItem(t)
    ensures var (w, rest) := ParseOctetRanges(s, v).value; s == ItemsText(items) + rest && Adds(v, items, w)
    decreases |s|
  {
    hide ItemText, ItemsText, Fill, Adds, Lower, Upper, ValidItem;
    var r := ParseRange(s).value;
    var t := RangeIsItem(s);
    var u := Fill(v, r.start, r.end);
    hide ParseRange;
    if Head(r.tail) == ',' {
      var more := RangesAreItems(r.tail[1..], u);
      items := [t] + more;
      assert items[1..] == more;
      assert r.tail == "," + r.tail[1..];
      MoreItemsText(t, more, ParseOctetRanges(s, v).value.1);
    } else {
      items := [t];
      assert items[1..] == [];
      OneItemText(t);
      AddsNone(u);
    }
    AddsFirst(v, items, ParseOctetRanges(s, v).value.0);
  }

  // ----- an octet

  predicate EmptySet(v: OctetSet) { forall k :: 0 <= k < 256 ==> !v[k] }

  lemma AddsToNone(v: OctetSet, items: seq<Item>, w: OctetSet)
    requires EmptySet(v)
    ensures Adds(v, items, w) <==> SetOf(Items(items), w)
  {
    forall k | 0 <= k < 256 ensures Covered(items, k) <==> Denotes(Items(items), k) {
    }
  }

  lemma ItemsStart(items: seq<Item>, rest: string)
    requires items != [] && forall t :: t in items ==> ValidItem(t)
    ensures var c := Head(ItemsText(items) + rest); IsDigit(c) || c == '-'
  {
    var t := items[0];
    assert ValidItem(t);
    if t.lower == "" {
      assert ItemText(t)[0] == '-';
    } else {
      assert ItemText(t)[0] == t.lower[0];
    }
    assert (ItemsText(items) + rest)[0] == ItemText(t)[0];
  }

  lemma OctetRead(o: OctetSpec, rest: string, v: OctetSet) returns (w: OctetSet)
    requires ValidOctet(o) && EndsOctet(rest) && EmptySet(v)
    ensures ParseOctet(OctetText(o) + rest, v) == Some((w, rest)) && SetOf(o, w)
    ensures Head(OctetText(o) + rest) != '\0'
  {
    hide ParseOctetRanges, ItemsText, Adds, ValidItem;
    if o.Star? {
      w := Fill(v, 0, 255);
      assert ("*" + rest)[1..] == rest;
    } else {
      ItemsStart(o.items, rest);
      w := ItemsRead(o.items, rest, v);
      AddsToNone(v, o.items, w);
    }
  }

  lemma OctetIsSpec(s: string, v: OctetSet) returns (o: OctetSpec)
    requires ParseOctet(s, v).Some? && EmptySet(v)
    ensures var (w, rest) := ParseOctet(s, v).value; ValidOctet(o) && s == OctetText(o) + rest && SetOf(o, w)
  {
    hide ParseOctetRanges, ItemsText, Adds, ValidItem;
    if Head(s) == '*' {
      o := Star;
      assert s == "*" + s[1..];
    } else {
      var items := RangesAreItems(s, v);
      o := Items(items);
      AddsToNone(v, items, ParseOctet(s, v).value.0);
    }
  }

  // ----- four octets

  /** Octets `i` and up of a specification that goes on with `s`: `b` is what it denotes. */
  ghost predicate SpecifiesFrom(s: string, i: nat, b: Block)
    requires i <= 4
    decreases 4 - i, 1
  {
    if i == 4 then s == ""
    else exists o, rest :: StartsWith(s, i, b, o, rest)
  }

  ghost predicate StartsWith(s: string, i: nat, b: Block, o: OctetSpec, rest: string)
    requires i < 4
    decreases 4 - i, 0
  {
    && ValidOctet(o) && SetOf(o, b[i])
    && s == OctetText(o) + (if i == 3 then "" else ".") + rest && SpecifiesFrom(rest, i + 1, b)
  }

  lemma SpecifiesStep(s: string, i: nat, b: Block, o: OctetSpec, rest: string)
    requires i < 4 && ValidOctet(o) && SetOf(o, b[i]) && SpecifiesFrom(rest, i + 1, b)
    requires s == OctetText(o) + (if i == 3 then "" else ".") + rest
    ensures SpecifiesFrom(s, i, b)
  {
    assert StartsWith(s, i, b, o, rest);
  }

  /** The octets from `i` on are still empty in `c`; below it agrees with `b`. */
  predicate Partly(c: Block, i: nat, b: Block) {
    i <= 4 && (forall j :: 0 <= j < i ==> c[j] == b[j]) && forall j :: i <= j < 4 ==> EmptySet(c[j])
  }

  lemma {:induction false} SpecifiedIsRead(s: string, i: nat, c: Block, b: Block)
    requires Partly(c, i, b) && SpecifiesFrom(s, i, b)
    ensures ParseBlock(s, i, c) == Some(b)
    decreases 4 - i
  {
    hide OctetText, ParseOctet, ValidOctet, SetOf, EmptySet;
    if i == 4 {
      assert c == b;
    } else {
      var o, rest :| StartsWith(s, i, b, o, rest);
      var more := (if i == 3 then "" else ".") + rest;
      assert s == OctetText(o) + more;
      if i == 3 { assert rest == ""; }
      var w := OctetRead(o, more, c[i]);
      SameSet(o, w, b[i]);
      var next: Block := c[i := w];
      SpecifiedIsRead(rest, i + 1, next, b);
      if i < 3 { assert more[1..] == rest; } else { assert more == rest; }
    }
  }

  lemma SameSet(o: OctetSpec, v: OctetSet, w: OctetSet)
    requires ValidOctet(o) && SetOf(o, v) && SetOf(o, w)
    ensures v == w
  {
    forall k | 0 <= k < 256 ensures v[k] == w[k] { assert v[k] <==> Denotes(o, k); }
  }

  lemma {:induction false} ReadIsSpecified(s: string, i: nat, c: Block, b: Block)
    requires '\0' !in s && i <= 4 && (forall j :: i <= j < 4 ==> EmptySet(c[j])) && ParseBlock(s, i, c) == Some(b)
    ensures SpecifiesFrom(s, i, b) && forall j :: 0 <= j < i ==> b[j] == c[j]
    decreases 4 - i
  {
    hide OctetText, ParseOctet, ValidOctet, SetOf, EmptySet, SpecifiesFrom;
    if i == 4 {
      NothingSpecified(s, b);
    } else {
      var (w, tail) := ParseOctet(s, c[i]).value;
      var o := OctetIsSpec(s, c[i]);
      var next: Block := c[i := w];
      var rest := if i == 3 then tail else tail[1..];
      assert s == OctetText(o) + (if i == 3 then "" else ".") + rest;
      forall k | 0 <= k < |rest| ensures rest[k] != '\0' { assert rest[k] in s; }
      ReadIsSpecified(rest, i + 1, next, b);
      SpecifiesStep(s, i, b, o, rest);
    }
  }

  lemma NothingSpecified(s: string, b: Block)
    ensures SpecifiesFrom(s, 4, b) <==> s == ""
  {
  }

  lemma FourTexts(t0: string, t1: string, t2: string, t3: string)
    ensures t0 + "." + (t1 + "." + (t2 + "." + (t3 + "" + ""))) == t0 + "." + t1 + "." + t2 + "." + t3
    ensures t0 + ("." + (t1 + ("." + (t2 + ("." + (t3 + ("" + ""))))))) == t0 + "." + t1 + "." + t2 + "." + t3
  {
    assert t3 + "" + "" == t3 + ("" + "") == t3;
  }

  lemma SpecifiesFour(s: string, b: Block)
    ensures SpecifiesFrom(s, 0, b) <==> Specifies(s, b)
  {
    if SpecifiesFrom(s, 0, b) { FourOctets(s, b); }
    if Specifies(s, b) { OctetsInRow(s, b); }
  }

  lemma FirstOctet(s: string, i: nat, b: Block) returns (o: OctetSpec, rest: string)
    requires i < 4 && SpecifiesFrom(s, i, b)
    ensures ValidOctet(o) && SetOf(o, b[i]) && s == OctetText(o) + ((if i == 3 then "" else ".") + rest)
    ensures SpecifiesFrom(rest, i + 1, b)
  {
    hide OctetText, SetOf, ValidOctet;
    o, rest :| StartsWith(s, i, b, o, rest);
  }

  lemma FourOctets(s: string, b: Block)
    requires SpecifiesFrom(s, 0, b)
    ensures Specifies(s, b)
  {
    hide OctetText, SetOf, ValidOctet, SpecifiesFrom;
    var o0, r0 := FirstOctet(s, 0, b);
    var o1, r1 := FirstOctet(r0, 1, b);
    var o2, r2 := FirstOctet(r1, 2, b);
    var o3, r3 := FirstOctet(r2, 3, b);
    NothingSpecified(r3, b);
    FourTexts(OctetText(o0), OctetText(o1), OctetText(o2), OctetText(o3));
  }

  lemma OctetsInRow(s: string, b: Block)
    requires Specifies(s, b)
    ensures SpecifiesFrom(s, 0, b)
  {
    hide OctetText, SetOf, ValidOctet, SpecifiesFrom;
    var o0, o1, o2, o3 :|
      && ValidOctet(o0) && ValidOctet(o1) && ValidOctet(o2) && ValidOctet(o3)
      && s == OctetText(o0) + "." + OctetText(o1) + "." + OctetText(o2) + "." + OctetText(o3)
      && SetOf(o0, b[0]) && SetOf(o1, b[1]) && SetOf(o2, b[2]) && SetOf(o3, b[3]);
    var r2 := OctetText(o3) + "" + "";
    var r1 := OctetText(o2) + "." + r2;
    var r0 := OctetText(o1) + "." + r1;
    NothingSpecified("", b);
    SpecifiesStep(r2, 3, b, o3, "");
    SpecifiesStep(r1, 2, b, o2, r2);
    SpecifiesStep(r0, 1, b, o1, r1);
    FourTexts(OctetText(o0), OctetText(o1), OctetText(o2), OctetText(o3));
    SpecifiesStep(s, 0, b, o0, r0);
  }

  /** A text is accepted, and then as the block `b`, if and only if it is that of four octets that denote
      the sets of `b`. */
  lemma ParsedExactly(s: string, b: Block)
    requires '\0' !in s
    ensures ParseBlock(s, 0, EMPTY) == Some(b) <==> Specifies(s, b)
  {
    hide SpecifiesFrom, Specifies, ParseBlock;
    SpecifiesFour(s, b);
    if ParseBlock(s, 0, EMPTY) == Some(b) { ReadIsSpecified(s, 0, EMPTY, b); }
    if SpecifiesFrom(s, 0, b) { SpecifiedIsRead(s, 0, EMPTY, b); }
  }

  // ----- the parser

  /** Reads the longest run of digits from `p` on; without any, `tail` is `p`. */
  method ParseLong(s: string, p: nat) returns (n: nat, tail: nat)
    requires p <= |s|
    ensures tail == p + DigitRun(s[p..]) && n == Number(s[p..tail])
  {
    n, tail := 0, p;
    while tail < |s| && IsDigit(s[tail])
      invariant p <= tail <= |s|
      invariant forall k :: p <= k < tail ==> IsDigit(s[k])
      invariant n == Number(s[p..tail])
      invariant DigitRun(s[p..]) == tail - p + DigitRun(s[tail..])
    {
      assert s[tail..][1..] == s[tail + 1..];
      assert s[p..tail + 1][..tail - p] == s[p..tail];
      n := n * 10 + Digit(s[tail]);
      tail := tail + 1;
    }
  }

  method FillBits(bits: array<bool>, start: nat, end: nat)
    requires bits.Length == 256 && start <= end < 256
    modifies bits
    ensures bits[..] == Fill(old(bits[..]), start, end)
  {
    var i := start;
    while i <= end
      invariant start <= i <= end + 1
      invariant forall k :: 0 <= k < 256 ==> bits[k] == (old(bits[k]) || start <= k < i)
    {
      bits[i] := true;
      i := i + 1;
    }
  }

  function At(s: string, p: nat): char
    requires p <= |s|
  {
    if p < |s| then s[p] else '\0'
  }

  lemma Slices(s: string, p: nat, t: nat)
    requires p <= t <= |s|
    ensures s[p..t] == s[p..][..t - p] && s[t..] == s[p..][t - p..]
    ensures Head(s[t..]) == At(s, t) && (t < |s| ==> s[t + 1..] == s[t..][1..])
  {
  }

  lemma NoNumber()
    ensures Number("") == 0
  {
  }

  /** One range from `p` on: succeeds, and sets the bits of the range, as `ParseRange` says. */
  method ParseOneRange(bits: array<bool>, s: string, p: nat) returns (ok: bool, tail: nat)
    requires bits.Length == 256 && p <= |s|
    modifies bits
    ensures p <= tail <= |s|
    ensures ok <==> ParseRange(s[p..]).Some?
    ensures ok ==> var r := ParseRange(s[p..]).value;
              bits[..] == Fill(old(bits[..]), r.start, r.end) && s[tail..] == r.tail
  {
    hide Number, DigitRun, Fill;
    ok, tail := false, p;
    var start, t := ParseLong(s, p);
    Slices(s, p, t);
    assert start == Number(s[p..][..t - p]);
    if t == p {
      if At(s, p) != '-' { return; }
      NoNumber();
      start := 0;
    }
    if start > 255 { return; }
    var end := start;
    if At(s, t) == '-' {
      var from := t + 1;
      end, t := ParseLong(s, from);
      Slices(s, from, t);
      if t == from { end := 255; }
      if end > 255 || end < start { return; }
    }
    FillBits(bits, start, end);
    ok, tail := true, t;
  }

  /** After one range, up to `t`, has been read into `v`, giving `w`. */
  lemma RangesStep(s: string, p: nat, t: nat, v: OctetSet, w: OctetSet)
    requires p <= t <= |s| && ParseRange(s[p..]).Some?
    requires var r := ParseRange(s[p..]).value; w == Fill(v, r.start, r.end) && s[t..] == r.tail
    ensures ParseOctetRanges(s[p..], v) ==
            if At(s, t) == ',' then ParseOctetRanges(s[t + 1..], w) else Some((w, s[t..]))
  {
    hide Fill, ParseRange;
    Slices(s, p, t);
  }

  /** The ranges of one octet, from `p` on. */
  method ParseRanges(bits: array<bool>, s: string, p: nat) returns (ok: bool, tail: nat)
    requires bits.Length == 256 && p <= |s|
    modifies bits
    ensures p <= tail <= |s|
    ensures ok <==> ParseOctetRanges(s[p..], old(bits[..])).Some?
    ensures ok ==> ParseOctetRanges(s[p..], old(bits[..])) == Some((bits[..], s[tail..]))
  {
    hide Fill, ParseRange, ParseOctetRanges;
    ok, tail := true, p;
    ghost var result := ParseOctetRanges(s[p..], bits[..]);
    while true
      invariant p <= tail <= |s| && ok
      invariant result == ParseOctetRanges(s[tail..], bits[..])
      decreases |s| - tail
    {
      ghost var from, v := tail, bits[..];
      NoRange(s[from..], v);
      ok, tail := ParseOneRange(bits, s, tail);
      if !ok { return; }
      RangesStep(s, from, tail, v, bits[..]);
      if At(s, tail) != ',' { return; }
      tail := tail + 1;
    }
  }

  lemma NoRange(s: string, v: OctetSet)
    ensures ParseRange(s).None? ==> ParseOctetRanges(s, v).None?
  {
  }

  /** One octet from `p` on. */
  method ParseOneOctet(bits: array<bool>, s: string, p: nat) returns (ok: bool, tail: nat)
    requires bits.Length == 256 && p <= |s|
    modifies bits
    ensures p <= tail <= |s|
    ensures ok <==> ParseOctet(s[p..], old(bits[..])).Some?
    ensures ok ==> ParseOctet(s[p..], old(bits[..])) == Some((bits[..], s[tail..]))
  {
    hide Fill, ParseOctetRanges;
    Slices(s, p, p);
    if At(s, p) == '*' {
      FillBits(bits, 0, 255);
      ok, tail := true, p + 1;
    } else {
      ok, tail := ParseRanges(bits, s, p);
    }
  }

  lemma AcceptedTexts(s: string)
    ensures '\0' !in s ==> forall b: Block :: ParseBlock(s, 0, EMPTY) == Some(b) <==> Specifies(s, b)
  {
    hide ParseBlock, Specifies;
    if '\0' !in s {
      forall b: Block ensures ParseBlock(s, 0, EMPTY) == Some(b) <==> Specifies(s, b) { ParsedExactly(s, b); }
    }
  }

  /** Parses a target specification into the octet sets of a block.  In a new block these are then the
      octets that the text denotes, and no other text is accepted. */
  method ParseIPv4Ranges(block: NetBlockIPv4Ranges, s: string) returns (ok: bool)
    requires block.Valid() && All(block.counter[..], 0)
    modifies block.octets
    ensures block.Valid()
    ensures ok <==> ParseBlock(s, 0, old(block.Sets())).Some?
    ensures ok ==> ParseBlock(s, 0, old(block.Sets())) == Some(block.Sets())
    ensures old(block.Sets()) == EMPTY && '\0' !in s ==> ok == exists b: Block :: Specifies(s, b)
    ensures old(block.Sets()) == EMPTY && '\0' !in s ==> ok ==> Specifies(s, block.Sets())
  {
    hide ParseOctet, Specifies;
    ok := false;
    var p, i := 0, 0;
    assert s[0..] == s;
    ghost var was := block.Sets();
    while At(s, p) != '\0' && i < 4
      invariant p <= |s| && i <= 4 && block.Shape()
      invariant ParseBlock(s, 0, was) == ParseBlock(s[p..], i, block.Sets())
      decreases 4 - i
    {
      ghost var b := block.Sets();
      Slices(s, p, p);
      ghost var at := p;
      var parsed: bool;
      parsed, p := ParseOneOctet(block.octets[i], s, p);
      if !parsed { AcceptedTexts(s); return; }
      assert block.Sets() == b[i := block.octets[i][..]];
      Slices(s, p, p);
      i := i + 1;
      if i < 4 {
        if At(s, p) != '.' { AcceptedTexts(s); return; }
        p := p + 1;
      }
    }
    Slices(s, p, p);
    ok := !(At(s, p) != '\0' || i < 4);
    AcceptedTexts(s);
  }
}
