/** Printing an IPv4 block and parsing it back. */
module RangeText {
  import opened Peg
  import opened Bytes
  import opened IPv4Ranges

  // ----- numbers

  predicate IsDigit(c: char) { '0' <= c <= '9' }

  function DigitChar(d: nat): char
    requires d < 10
  {
    '0' + d as char
  }

  function Decimal(n: nat): (s: string)
    ensures s != [] && forall c :: c in s ==> IsDigit(c)
  {
    if n < 10 then [DigitChar(n)] else Decimal(n / 10) + [DigitChar(n % 10)]
  }

  /** Length of the longest run of digits at the start. */
  function DigitRun(s: string): (n: nat)
    ensures n <= |s| && forall k :: 0 <= k < n ==> IsDigit(s[k])
  {
    if s != [] && IsDigit(s[0]) then 1 + DigitRun(s[1..]) else 0
  }

  function Digit(c: char): nat
    requires IsDigit(c)
  {
    c as int - '0' as int
  }

  function Number(s: string): nat
    requires forall k :: 0 <= k < |s| ==> IsDigit(s[k])
  {
    if s == [] then 0 else Number(s[..|s| - 1]) * 10 + Digit(s[|s| - 1])
  }

  lemma {:induction false} DecimalNumber(n: nat)
    ensures Number(Decimal(n)) == n
  {
    var s := Decimal(n);
    if n < 10 {
      assert s[..0] == [];
    } else {
      assert s[..|s| - 1] == Decimal(n / 10);
      DecimalNumber(n / 10);
    }
  }

  lemma {:induction false} RunOfDigits(d: string, rest: string)
    requires forall c :: c in d ==> IsDigit(c)
    requires rest == [] || !IsDigit(rest[0])
    ensures DigitRun(d + rest) == |d|
  {
    if d == [] {
      assert d + rest == rest;
    } else {
      assert (d + rest)[1..] == d[1..] + rest;
      RunOfDigits(d[1..], rest);
    }
  }

  // ----- printing

  /** Where the run of bits equal to `bit` that starts at `i` ends. */
  function SkipWhile(v: OctetSet, i: nat, bit: bool): (j: nat)
    requires i <= 256
    ensures i <= j <= 256
    ensures forall k :: i <= k < j ==> v[k] == bit
    ensures j < 256 ==> v[j] != bit
    decreases 256 - i
  {
    if i < 256 && v[i] == bit then SkipWhile(v, i + 1, bit) else i
  }

  /** A run of octets from `i` up to but not including `j`. */
  function RunText(i: nat, j: nat): string
    requires i < j
  {
    if i == j - 1 then Decimal(i)
    else if i + 1 == j - 1 then Decimal(i) + "," + Decimal(j - 1)
    else Decimal(i) + "-" + Decimal(j - 1)
  }

  function RunsText(v: OctetSet, i: nat, separate: bool): string
    requires i <= 256
    decreases 256 - i
  {
    var a := SkipWhile(v, i, false);
    if a == 256 then "" else
    var z := SkipWhile(v, a, true);
    (if separate then "," else "") + RunText(a, z) + RunsText(v, z, true)
  }

  function BlockText(b: Block): string {
    RunsText(b[0], 0, false) + "." + RunsText(b[1], 0, false) + "." +
    RunsText(b[2], 0, false) + "." + RunsText(b[3], 0, false)
  }

  lemma RunsStep(v: OctetSet, i: nat, separate: bool)
    requires i <= 256
    ensures var a := SkipWhile(v, i, false);
            if a == 256 then RunsText(v, i, separate) == ""
            else var z := SkipWhile(v, a, true);
              a < z && RunsText(v, i, separate)
                 == (if separate then "," else "") + RunText(a, z) + RunsText(v, z, true)
  {
  }

  method BitvectorToRangeString(v: array<bool>) returns (s: string)
    requires v.Length == 256
    ensures s == RunsText(v[..], 0, false)
    ensures ListsRuns(v[..], s)
  {
    hide RunsText, RunText, Decimal, ListsRuns;
    ghost var w: OctetSet := v[..];
    PrintedRuns(w);
    s := "";
    var i := 0;
    while i < 256
      invariant i <= 256
      invariant s != "" || i == 0
      invariant RunsText(w, 0, false) == s + RunsText(w, i, s != "")
    {
      ghost var start := i;
      while i < 256 && !v[i]
        invariant start <= i <= 256
        invariant SkipWhile(w, start, false) == SkipWhile(w, i, false)
      {
        i := i + 1;
      }
      RunsStep(w, start, s != "");
      if i >= 256 { return; }
      var j := i + 1;
      while j < 256 && v[j]
        invariant i < j <= 256
        invariant SkipWhile(w, i, true) == SkipWhile(w, j, true)
      {
        j := j + 1;
      }
      if s != "" { s := s + ","; }
      s := s + RunText(i, j);
      RunTextNotEmpty(i, j);
      i := j;
    }
    RunsStep(w, 256, s != "");
  }

  lemma RunTextNotEmpty(i: nat, j: nat)
    requires i < j
    ensures RunText(i, j) != ""
  {
  }

  // ----- the form of a printed set

  /** The octets from `first` to `last`. */
  datatype Span = Span(first: Octet, last: Octet)

  predicate InSome(spans: seq<Span>, k: nat) {
    exists n :: 0 <= n < |spans| && spans[n].first <= k <= spans[n].last
  }

  /** `spans` are the runs of the octets in `v` from `i` on: in order, none left out, each as long as possible. */
  predicate Spans(v: OctetSet, i: nat, spans: seq<Span>) {
    && (forall k :: i <= k < 256 && v[k] ==> InSome(spans, k))
    && (forall n, k {:trigger spans[n], v[k]} :: 0 <= n < |spans| && spans[n].first <= k <= spans[n].last ==> v[k])
    && (forall n :: 0 <= n < |spans| ==>
          && i <= spans[n].first <= spans[n].last
          && (spans[n].first > i ==> !v[spans[n].first - 1]) && (spans[n].last < 255 ==> !v[spans[n].last + 1]))
    && (forall m, n :: 0 <= m < n < |spans| ==> spans[m].last < spans[n].first)
  }

  function SpanText(s: Span): string
    requires s.first <= s.last
  {
    RunText(s.first, s.last + 1)
  }

  function Listed(spans: seq<Span>): string
    requires forall n :: 0 <= n < |spans| ==> spans[n].first <= spans[n].last
  {
    if spans == [] then "" else if |spans| == 1 then SpanText(spans[0])
    else SpanText(spans[0]) + "," + Listed(spans[1..])
  }

  /** `s` lists the runs of `v`. */
  ghost predicate ListsRuns(v: OctetSet, s: string) {
    && (exists spans :: Spans(v, 0, spans) && s == Listed(spans))
    && forall spans :: Spans(v, 0, spans) ==> s == Listed(spans)
  }

  lemma PrintedRuns(v: OctetSet)
    ensures ListsRuns(v, RunsText(v, 0, false))
  {
    var some := SomeSpans(v, 0);
    forall spans | Spans(v, 0, spans) ensures RunsText(v, 0, false) == Listed(spans) {
      PrintedSpans(v, 0, spans, false);
    }
  }

  lemma {:induction false} SomeSpans(v: OctetSet, i: nat) returns (spans: seq<Span>)
    requires i <= 256
    ensures Spans(v, i, spans)
    decreases 256 - i
  {
    hide SkipWhile;
    var a := SkipWhile(v, i, false);
    if a == 256 {
      spans := [];
    } else {
      var z := SkipWhile(v, a, true);
      var rest := SomeSpans(v, z);
      spans := [Span(a, z - 1)] + rest;
      forall k | i <= k < 256 && v[k] ensures InSome(spans, k) {
        if k < z {
          assert spans[0].first <= k <= spans[0].last;
        } else {
          var n :| 0 <= n < |rest| && rest[n].first <= k <= rest[n].last;
          assert spans[n + 1] == rest[n];
        }
      }
    }
  }

  lemma {:induction false} PrintedSpans(v: OctetSet, i: nat, spans: seq<Span>, separate: bool)
    requires i <= 256 && Spans(v, i, spans)
    ensures forall n :: 0 <= n < |spans| ==> spans[n].first <= spans[n].last
    ensures RunsText(v, i, separate) == (if separate && spans != [] then "," else "") + Listed(spans)
    decreases |spans|
  {
    InOrder(v, i, spans);
    RunsStep(v, i, separate);
    hide Spans, SkipWhile, RunsText, RunText, Listed;
    ListedStep(spans);
    if spans == [] {
      NoSpan(v, i);
    } else {
      FirstSpan(v, i, spans);
      var z, rest := spans[0].last + 1, spans[1..];
      PrintedSpans(v, z, rest, true);
      Regroup(if separate then "," else "", SpanText(spans[0]), if rest != [] then "," else "", Listed(rest));
    }
  }

  lemma Regroup(a: string, b: string, c: string, d: string)
    ensures a + b + (c + d) == a + (b + c + d)
  {
  }

  lemma InOrder(v: OctetSet, i: nat, spans: seq<Span>)
    requires Spans(v, i, spans)
    ensures forall n :: 0 <= n < |spans| ==> spans[n].first <= spans[n].last
  {
  }

  lemma NoSpan(v: OctetSet, i: nat)
    requires i <= 256 && Spans(v, i, [])
    ensures SkipWhile(v, i, false) == 256
  {
    forall k | i <= k < 256 ensures !v[k] { assert !InSome([], k); }
  }

  lemma ListedStep(spans: seq<Span>)
    requires forall n :: 0 <= n < |spans| ==> spans[n].first <= spans[n].last
    ensures Listed(spans)
         == if spans == [] then "" else SpanText(spans[0]) + (if |spans| > 1 then "," else "") + Listed(spans[1..])
  {
    hide RunText;
    if |spans| == 1 { assert Listed(spans[1..]) == ""; }
  }

  lemma FirstSpan(v: OctetSet, i: nat, spans: seq<Span>)
    requires i <= 256 && Spans(v, i, spans) && spans != []
    ensures SkipWhile(v, i, false) == spans[0].first
    ensures SkipWhile(v, spans[0].first, true) == spans[0].last + 1
    ensures Spans(v, spans[0].last + 1, spans[1..])
  {
    hide SkipWhile;
    var a, first, last := SkipWhile(v, i, false), spans[0].first, spans[0].last;
    assert v[first] && v[last];
    forall k | last + 1 <= k < 256 && v[k] ensures InSome(spans[1..], k) {
      assert InSome(spans, k);
      var n :| 0 <= n < |spans| && spans[n].first <= k <= spans[n].last;
      assert spans[1..][n - 1] == spans[n];
    }
  }

  /** One octet is printed as its number, two as two numbers, more as a range. */
  lemma RunForms(i: nat, j: nat)
    requires i < j
    ensures ',' in RunText(i, j) <==> j - i == 2
    ensures '-' in RunText(i, j) <==> j - i > 2
  {
    var low, high := Decimal(i), Decimal(j - 1);
    assert !IsDigit(',') && !IsDigit('-');
    if j - i > 2 { assert (low + "-" + high)[|low|] == '-'; }
    if j - i == 2 { assert (low + "," + high)[|low|] == ','; }
  }

  /** No number has a leading zero. */
  lemma {:induction false} NoLeadingZero(n: nat)
    ensures |Decimal(n)| > 1 ==> Decimal(n)[0] != '0'
  {
    if n >= 10 { NoLeadingZero(n / 10); }
  }

  // ----- parsing: each function takes the rest of the text, as the C pointer does

  /** The next character, NUL at the end. */
  function Head(s: string): char { if s == [] then '\0' else s[0] }

  datatype Range = Range(start: nat, end: nat, tail: string)

  /** `#`, `#-`, `-#`, `#-#` or `-`. */
  function ParseRange(s: string): (r: Option<Range>)
    ensures r.Some? ==> r.value.start <= r.value.end <= 255 && |r.value.tail| <= |s|
  {
    var n := DigitRun(s);
    if n == 0 && Head(s) != '-' then None else
    var start := Number(s[..n]);
    if start > 255 then None else
    var t := s[n..];
    if Head(t) != '-' then Some(Range(start, start, t)) else
    var u := t[1..];
    var k := DigitRun(u);
    var end := if k == 0 then 255 else Number(u[..k]);
    if end > 255 || end < start then None else Some(Range(start, end, u[k..]))
  }

  function Fill(v: OctetSet, start: nat, end: nat): OctetSet {
    seq(256, k requires 0 <= k < 256 => v[k] || start <= k <= end)
  }

  function ParseOctetRanges(s: string, v: OctetSet): (r: Option<(OctetSet, string)>)
    ensures r.Some? ==> |r.value.1| <= |s|
    decreases |s|
  {
    match ParseRange(s)
    case None => None
    case Some(Range(start, end, tail)) =>
      var w := Fill(v, start, end);
      if Head(tail) == ',' then ParseOctetRanges(tail[1..], w) else Some((w, tail))
  }

  function ParseOctet(s: string, v: OctetSet): (r: Option<(OctetSet, string)>)
    ensures r.Some? ==> |r.value.1| <= |s|
  {
    if Head(s) == '*' then Some((Fill(v, 0, 255), s[1..])) else ParseOctetRanges(s, v)
  }

  /** Parses the octets from index `i` on, into the sets of `b`. */
  function ParseBlock(s: string, i: nat, b: Block): Option<Block>
    requires i <= 4
    decreases 4 - i
  {
    if Head(s) == '\0' || i == 4 then (if Head(s) != '\0' || i < 4 then None else Some(b)) else
    match ParseOctet(s, b[i])
    case None => None
    case Some((v, tail)) =>
      var c: Block := b[i := v];
      if i + 1 == 4 then ParseBlock(tail, 4, c)
      else if Head(tail) != '.' then None
      else ParseBlock(tail[1..], i + 1, c)
  }

  const NONE: OctetSet := seq(256, _ => false)

  const EMPTY: Block := [NONE, NONE, NONE, NONE]

  // ----- round trip

  predicate EndsNumber(rest: string) { rest == [] || !(IsDigit(rest[0]) || rest[0] == '-') }

  lemma ParseDecimal(i: Octet, rest: string)
    requires EndsNumber(rest)
    ensures ParseRange(Decimal(i) + rest) == Some(Range(i, i, rest))
  {
    RunOfDigits(Decimal(i), rest);
    DecimalNumber(i);
    assert (Decimal(i) + rest)[..|Decimal(i)|] == Decimal(i);
    assert (Decimal(i) + rest)[|Decimal(i)|..] == rest;
  }

  lemma ParseSpan(i: Octet, j: Octet, rest: string)
    requires i <= j && EndsNumber(rest)
    ensures ParseRange(Decimal(i) + "-" + Decimal(j) + rest) == Some(Range(i, j, rest))
  {
    hide Decimal, Number, DigitRun;
    var di, dj := Decimal(i), Decimal(j);
    assert di + "-" + dj + rest == di + ("-" + (dj + rest));
    RunOfDigits(di, "-" + (dj + rest));
    RunOfDigits(dj, rest);
    DecimalNumber(i);
    DecimalNumber(j);
    Cut(di, "-" + (dj + rest));
    Cut("-", dj + rest);
    Cut(dj, rest);
  }

  lemma Cut(a: string, b: string)
    ensures (a + b)[..|a|] == a && (a + b)[|a|..] == b
  {
  }

  /** What follows one printed run. */
  function AfterRun(rest: string, v: OctetSet): Option<(OctetSet, string)> {
    if Head(rest) == ',' then ParseOctetRanges(rest[1..], v) else Some((v, rest))
  }

  /** Each of the three printed forms of a run is read back as that run. */
  lemma ParseRun(i: nat, j: nat, rest: string, v: OctetSet)
    requires i < j <= 256 && EndsNumber(rest)
    ensures ParseOctetRanges(RunText(i, j) + rest, v) == AfterRun(rest, Fill(v, i, j - 1))
  {
    hide Decimal, ParseRange, Fill;
    if i == j - 1 {
      ParseDecimal(i, rest);
    } else if i + 1 == j - 1 {
      var more := "," + Decimal(j - 1) + rest;
      assert RunText(i, j) + rest == Decimal(i) + more;
      ParseDecimal(i, more);
      assert more[1..] == Decimal(j - 1) + rest;
      ParseDecimal(j - 1, rest);
      FillPair(v, i);
    } else {
      ParseSpan(i, j - 1, rest);
    }
  }

  lemma FillPair(v: OctetSet, i: nat)
    ensures Fill(Fill(v, i, i), i + 1, i + 1) == Fill(v, i, i + 1)
  {
  }

  /** `w` has the bits of `v` below `i` and no others. */
  predicate Below(v: OctetSet, w: OctetSet, i: nat) {
    forall k :: 0 <= k < 256 ==> w[k] == (k < i && v[k])
  }

  predicate EndsOctet(rest: string) { EndsNumber(rest) && Head(rest) != ',' }

  lemma {:induction false} ParseRuns(v: OctetSet, i: nat, w: OctetSet, rest: string)
    requires i <= 256 && SkipWhile(v, i, false) < 256 && Below(v, w, i) && EndsOctet(rest)
    ensures ParseOctetRanges(RunsText(v, i, false) + rest, w) == Some((v, rest))
    decreases 256 - i
  {
    hide SkipWhile, RunsText, RunText, Fill, ParseOctetRanges;
    var a := SkipWhile(v, i, false);
    var z := SkipWhile(v, a, true);
    RunsStep(v, i, false);
    RunsStep(v, z, true);
    RunsStep(v, z, false);
    var more := RunsText(v, z, true);
    var u := Fill(w, a, z - 1);
    FillRun(v, i, a, z, w);
    assert RunsText(v, i, false) + rest == RunText(a, z) + (more + rest);
    ParseRun(a, z, more + rest, w);
    if SkipWhile(v, z, false) == 256 {
      assert more + rest == rest;
      AllBelow(v, z, u);
    } else {
      assert (more + rest)[1..] == RunsText(v, z, false) + rest;
      ParseRuns(v, z, u, rest);
    }
  }

  lemma FillRun(v: OctetSet, i: nat, a: nat, z: nat, w: OctetSet)
    requires i <= a < z <= 256 && Below(v, w, i)
    requires forall k :: i <= k < a ==> !v[k]
    requires forall k :: a <= k < z ==> v[k]
    ensures Below(v, Fill(w, a, z - 1), z)
  {
  }

  lemma AllBelow(v: OctetSet, z: nat, w: OctetSet)
    requires z <= 256 && Below(v, w, z) && SkipWhile(v, z, false) == 256
    ensures w == v
  {
  }

  lemma ParseOctetText(v: OctetSet, rest: string)
    requires !NoBit(v) && EndsOctet(rest)
    ensures var s := RunsText(v, 0, false) + rest;
            Head(s) != '\0' && ParseOctet(s, NONE) == Some((v, rest))
  {
    hide SkipWhile, RunsText, RunText, ParseOctetRanges;
    RunsStep(v, 0, false);
    SomeBit(v);
    ParseRuns(v, 0, NONE, rest);
    RunStarts(SkipWhile(v, 0, false), SkipWhile(v, SkipWhile(v, 0, false), true));
  }

  lemma SomeBit(v: OctetSet)
    requires !NoBit(v)
    ensures SkipWhile(v, 0, false) < 256
  {
  }

  lemma RunStarts(i: nat, j: nat)
    requires i < j
    ensures RunText(i, j) != "" && IsDigit(RunText(i, j)[0])
  {
    assert Decimal(i)[0] in Decimal(i);
  }

  lemma ParseNextOctet(b: Block, i: nat, w: Block, rest: string)
    requires i < 4 && !NoBit(b[i]) && w[i] == NONE && EndsOctet(rest)
    requires i < 3 ==> Head(rest) == '.'
    ensures ParseBlock(RunsText(b[i], 0, false) + rest, i, w)
         == if i < 3 then ParseBlock(rest[1..], i + 1, w[i := b[i]]) else ParseBlock(rest, 4, w[i := b[i]])
  {
    hide RunsText, ParseOctet, NoBit;
    ParseOctetText(b[i], rest);
  }

  /** Parsing the text of a block without empty octet sets rebuilds the block. */
  lemma ParsePrinted(b: Block)
    requires !Empty(b)
    ensures ParseBlock(BlockText(b), 0, EMPTY) == Some(b)
  {
    hide RunsText, ParseBlock, NoBit;
    var t0, t1 := RunsText(b[0], 0, false), RunsText(b[1], 0, false);
    var t2, t3 := RunsText(b[2], 0, false), RunsText(b[3], 0, false);
    var r2 := "." + (t3 + "");
    var r1 := "." + (t2 + r2);
    var r0 := "." + (t1 + r1);
    assert BlockText(b) == t0 + r0;
    ParseNextOctet(b, 0, EMPTY, r0);
    ParseNextOctet(b, 1, [b[0], NONE, NONE, NONE], r1);
    ParseNextOctet(b, 2, [b[0], b[1], NONE, NONE], r2);
    ParseNextOctet(b, 3, [b[0], b[1], b[2], NONE], "");
    assert r0[1..] == t1 + r1 && r1[1..] == t2 + r2 && r2[1..] == t3 + "";
    assert EMPTY[0 := b[0]] == [b[0], NONE, NONE, NONE];
    assert [b[0], NONE, NONE, NONE][1 := b[1]] == [b[0], b[1], NONE, NONE];
    assert [b[0], b[1], NONE, NONE][2 := b[2]] == [b[0], b[1], b[2], NONE];
    assert [b[0], b[1], b[2], NONE][3 := b[3]] == b;
    AtEnd(b);
  }

  lemma AtEnd(b: Block)
    ensures ParseBlock("", 4, b) == Some(b)
  {
  }

  // ----- what is accepted is never empty

  lemma {:induction false} RangesNotEmpty(s: string, v: OctetSet)
    requires ParseOctetRanges(s, v).Some?
    ensures !NoBit(ParseOctetRanges(s, v).value.0)
    decreases |s|
  {
    var r := ParseRange(s).value;
    if Head(r.tail) == ',' {
      RangesNotEmpty(r.tail[1..], Fill(v, r.start, r.end));
    } else {
      assert Fill(v, r.start, r.end)[r.start];
    }
  }

  lemma OctetNotEmpty(s: string, v: OctetSet)
    requires ParseOctet(s, v).Some?
    ensures !NoBit(ParseOctet(s, v).value.0)
  {
    if Head(s) == '*' {
      assert Fill(v, 0, 255)[0];
    } else {
      RangesNotEmpty(s, v);
    }
  }

  lemma {:induction false} AcceptedNotEmpty(s: string, i: nat, b: Block)
    requires i <= 4 && ParseBlock(s, i, b).Some?
    requires forall k :: 0 <= k < i ==> !NoBit(b[k])
    ensures !Empty(ParseBlock(s, i, b).value)
    decreases 4 - i
  {
    hide NoBit, ParseOctet;
    if Head(s) != '\0' && i < 4 {
      OctetNotEmpty(s, b[i]);
      var r := ParseOctet(s, b[i]).value;
      if i == 3 {
        AcceptedNotEmpty(r.1, 4, b[i := r.0]);
      } else {
        AcceptedNotEmpty(r.1[1..], i + 1, b[i := r.0]);
      }
    }
  }

  /** Printing is a normal form: every accepted text denotes the block that its normal form denotes. */
  lemma NormalForm(s: string)
    requires ParseBlock(s, 0, EMPTY).Some?
    ensures ParseBlock(BlockText(ParseBlock(s, 0, EMPTY).value), 0, EMPTY) == ParseBlock(s, 0, EMPTY)
  {
    AcceptedNotEmpty(s, 0, EMPTY);
    ParsePrinted(ParseBlock(s, 0, EMPTY).value);
  }

  /** The text of a block. */
  method BlockString(block: NetBlockIPv4Ranges) returns (s: string)
    requires block.Shape()
    ensures s == BlockText(block.Sets())
  {
    s := BitvectorToRangeString(block.octets[0]);
    s := s + ".";
    var t := BitvectorToRangeString(block.octets[1]);
    s := s + t + ".";
    t := BitvectorToRangeString(block.octets[2]);
    s := s + t + ".";
    t := BitvectorToRangeString(block.octets[3]);
    s := s + t;
  }
}
