/** Domain names in DNS messages: reading compressed names, writing plain ones. */
module DnsName {
  import opened Peg
  import opened Bytes

  const DOT: Octet := 46
  const COMPRESSED := 0xC0
  const LABEL_MAX := 63
  const NAME_MAX := 255

  type Buffer = seq<Octet>

  type Text = seq<Octet>

  // ----- reading

  function Join(b: Buffer, at: nat): nat
    requires at + 1 < |b|
  {
    b[at] as int * 0x100 + b[at + 1]
  }

  /** The number in the two bytes at `at`, if they lie below `maxlen`. */
  function ShortAt(b: Buffer, at: nat, maxlen: nat): Option<nat>
    requires maxlen <= |b|
  {
    if maxlen > at + 1 then Some(Join(b, at)) else None
  }

  /** The walk of the reader from `curr`: `top` is the end of what has been consumed, `name` what has
      been read, each label followed by a dot.  The walk may read the byte at `maxlen`, but ends without a
      name where the buffer has no such byte. */
  function Walk(b: Buffer, maxlen: nat, curr: nat, top: nat, name: Text): (r: Option<(Text, nat)>)
    requires curr <= maxlen <= |b| && |name| < NAME_MAX
    ensures r.Some? ==> top <= r.value.1 && (curr == top ==> top < r.value.1)
    decreases NAME_MAX - |name|, curr
  {
    if curr == |b| then None else
    var n := b[curr];
    if n == 0 then Some((name, if top == curr then top + 1 else top))
    else if n >= COMPRESSED then
      if ShortAt(b, curr, maxlen).None? then None else
      var p := Join(b, curr) - COMPRESSED * 0x100;
      if p < curr then Walk(b, maxlen, p, if curr >= top then curr + 2 else top, name) else None
    else if n > LABEL_MAX then None
    else
      var next := curr + 1 + n;
      if next > maxlen then None else
      var longer := name + b[curr + 1..next] + [DOT];
      if |longer| > NAME_MAX - 1 then None
      else Walk(b, maxlen, next, if next > top then next else top, longer)
  }

  /** One step of the walk. */
  lemma WalkStep(b: Buffer, maxlen: nat, curr: nat, top: nat, name: Text)
    requires curr <= maxlen <= |b| && |name| < NAME_MAX
    ensures curr == |b| ==> Walk(b, maxlen, curr, top, name) == None
    ensures curr < |b| && b[curr] == 0 ==>
              Walk(b, maxlen, curr, top, name) == Some((name, if top == curr then top + 1 else top))
    ensures curr < |b| && b[curr] >= COMPRESSED ==>
              Walk(b, maxlen, curr, top, name) ==
                if ShortAt(b, curr, maxlen).None? || Join(b, curr) - COMPRESSED * 0x100 >= curr then None
                else Walk(b, maxlen, Join(b, curr) - COMPRESSED * 0x100, if curr >= top then curr + 2 else top, name)
    ensures curr < |b| && 0 < b[curr] < COMPRESSED ==>
              var next := curr + 1 + b[curr];
              Walk(b, maxlen, curr, top, name) ==
                if b[curr] > LABEL_MAX || next > maxlen || |name| + b[curr] + 1 > NAME_MAX - 1 then None
                else Walk(b, maxlen, next, if next > top then next else top, name + b[curr + 1..next] + [DOT])
  {
  }

  function DropDot(name: Text): Text {
    if name != [] && name[|name| - 1] == DOT then name[..|name| - 1] else name
  }

  /** The name at `offset`, and the number of bytes it takes there. */
  function NameAt(b: Buffer, offset: nat, maxlen: nat): Option<(Text, nat)>
    requires offset <= maxlen <= |b|
  {
    match Walk(b, maxlen, offset, offset, [])
    case None => None
    case Some((name, top)) => Some((DropDot(name), top - offset))
  }

  /** Ends on every buffer: each pointer goes back and each label makes the name longer. */
  method ParseDomainName(b: Buffer, offset: nat, maxlen: nat) returns (name: Text, length: nat)
    requires offset <= maxlen <= |b|
    ensures NameAt(b, offset, maxlen) == if length == 0 then None else Some((name, length))
  {
    hide Walk;
    name, length := [], 0;
    var top: nat, curr: nat := offset, offset;
    while curr < |b| && b[curr] != 0
      invariant curr <= maxlen && offset <= top && |name| < NAME_MAX
      invariant Walk(b, maxlen, offset, offset, []) == Walk(b, maxlen, curr, top, name)
      decreases NAME_MAX - |name|, curr
    {
      WalkStep(b, maxlen, curr, top, name);
      var n := b[curr];
      if n >= COMPRESSED {
        var short := ShortAt(b, curr, maxlen);
        if short.None? { return; }
        if curr >= top { top := curr + 2; }
        var p := short.value - COMPRESSED * 0x100;
        if p >= curr { return; }
        curr := p;
        continue;
      }
      if n > LABEL_MAX { return; }
      curr := curr + 1;
      if curr + n > maxlen { return; }
      name := name + b[curr..curr + n];
      curr := curr + n;
      if curr > top { top := curr; }
      name := name + [DOT];
      if |name| > NAME_MAX - 1 { return; }
    }
    WalkStep(b, maxlen, curr, top, name);
    if curr == |b| { return; }
    if top == curr { top := top + 1; }
    name := DropDot(name);
    length := top - offset;
  }

  /** The bytes after the buffer do not matter to a name that is found, nor to any if the buffer has the
      byte at `maxlen`. */
  lemma {:induction false} BytesAfter(b: Buffer, more: Buffer, maxlen: nat, curr: nat, top: nat, name: Text)
    requires curr <= maxlen <= |b| && |name| < NAME_MAX
    requires Walk(b, maxlen, curr, top, name).Some? || maxlen < |b|
    ensures Walk(b + more, maxlen, curr, top, name) == Walk(b, maxlen, curr, top, name)
    decreases NAME_MAX - |name|, curr
  {
    hide Walk;
    WalkStep(b, maxlen, curr, top, name);
    WalkStep(b + more, maxlen, curr, top, name);
    var n := b[curr];
    if n >= COMPRESSED {
      if ShortAt(b, curr, maxlen).Some? && Join(b, curr) - COMPRESSED * 0x100 < curr {
        BytesAfter(b, more, maxlen, Join(b, curr) - COMPRESSED * 0x100, if curr >= top then curr + 2 else top, name);
      }
    } else if n != 0 {
      var next := curr + 1 + n;
      if n <= LABEL_MAX && next <= maxlen {
        assert (b + more)[curr + 1..next] == b[curr + 1..next];
        if |name| + n + 1 < NAME_MAX {
          BytesAfter(b, more, maxlen, next, if next > top then next else top, name + b[curr + 1..next] + [DOT]);
        }
      }
    }
  }

  // ----- what a name denotes (section 4.1.4 of RFC 1035)

  type Labels = seq<Text>

  /** The labels, each followed by a dot. */
  function Dotted(labels: Labels): Text {
    if labels == [] then [] else labels[0] + [DOT] + Dotted(labels[1..])
  }

  /** The name at `at` is a sequence of labels that ends with a zero byte or with a pointer back. */
  predicate Denotes(b: Buffer, maxlen: nat, at: nat, labels: Labels)
    requires maxlen <= |b|
    decreases |labels|, at
  {
    at <= maxlen && at < |b| &&
    var n := b[at];
    if n == 0 then labels == []
    else if n >= COMPRESSED then
      at + 1 < maxlen && Join(b, at) - COMPRESSED * 0x100 < at
      && Denotes(b, maxlen, Join(b, at) - COMPRESSED * 0x100, labels)
    else
      n <= LABEL_MAX && at + 1 + n <= maxlen && labels != [] && labels[0] == b[at + 1..at + 1 + n]
      && Denotes(b, maxlen, at + 1 + n, labels[1..])
  }

  /** Reading adds the labels that the name denotes, unless they are too long. */
  lemma {:induction false} DenotedIsRead(b: Buffer, maxlen: nat, at: nat, top: nat, name: Text, labels: Labels)
    requires maxlen <= |b| && Denotes(b, maxlen, at, labels) && |name| + |Dotted(labels)| < NAME_MAX
    ensures Walk(b, maxlen, at, top, name).Some?
    ensures Walk(b, maxlen, at, top, name).value.0 == name + Dotted(labels)
    decreases |labels|, at
  {
    hide Walk;
    WalkStep(b, maxlen, at, top, name);
    var n := b[at];
    if n >= COMPRESSED {
      DenotedIsRead(b, maxlen, Join(b, at) - COMPRESSED * 0x100, if at >= top then at + 2 else top, name, labels);
    } else if n != 0 {
      var next := at + 1 + n;
      DenotedIsRead(b, maxlen, next, if next > top then next else top, name + labels[0] + [DOT], labels[1..]);
    }
  }

  lemma {:induction false} ReadIsDenoted(b: Buffer, maxlen: nat, at: nat, top: nat, name: Text) returns (labels: Labels)
    requires at <= maxlen <= |b| && |name| < NAME_MAX && Walk(b, maxlen, at, top, name).Some?
    ensures Denotes(b, maxlen, at, labels) && |name| + |Dotted(labels)| < NAME_MAX
    decreases NAME_MAX - |name|, at
  {
    hide Walk;
    WalkStep(b, maxlen, at, top, name);
    var n := b[at];
    if n >= COMPRESSED {
      labels := ReadIsDenoted(b, maxlen, Join(b, at) - COMPRESSED * 0x100, if at >= top then at + 2 else top, name);
    } else if n == 0 {
      labels := [];
    } else {
      var next := at + 1 + n;
      var rest := ReadIsDenoted(b, maxlen, next, if next > top then next else top, name + b[at + 1..next] + [DOT]);
      labels := [b[at + 1..next]] + rest;
    }
  }

  /** A name is read if and only if it denotes labels that are short enough, and then it reads as
      these labels. */
  lemma NameIsRead(b: Buffer, offset: nat, maxlen: nat)
    requires offset <= maxlen <= |b|
    ensures NameAt(b, offset, maxlen).Some? <==>
            exists labels :: Denotes(b, maxlen, offset, labels) && |Dotted(labels)| < NAME_MAX
    ensures forall labels :: Denotes(b, maxlen, offset, labels) && |Dotted(labels)| < NAME_MAX ==>
              NameAt(b, offset, maxlen).Some? && NameAt(b, offset, maxlen).value.0 == DropDot(Dotted(labels))
  {
    hide Walk, Denotes, Dotted;
    if Walk(b, maxlen, offset, offset, []).Some? {
      var labels := ReadIsDenoted(b, maxlen, offset, offset, []);
    }
    forall labels | Denotes(b, maxlen, offset, labels) && |Dotted(labels)| < NAME_MAX
      ensures NameAt(b, offset, maxlen).Some? && NameAt(b, offset, maxlen).value.0 == DropDot(Dotted(labels))
    {
      DenotedIsRead(b, maxlen, offset, offset, [], labels);
      assert [] + Dotted(labels) == Dotted(labels);
    }
  }

  // ----- how much of the message a name takes

  /** The end of the name in place: after the zero byte or the first pointer. */
  function Extent(b: Buffer, maxlen: nat, at: nat, labels: Labels): nat
    requires maxlen <= |b| && Denotes(b, maxlen, at, labels)
    decreases |labels|
  {
    if b[at] == 0 then at + 1
    else if b[at] >= COMPRESSED then at + 2
    else Extent(b, maxlen, at + 1 + b[at], labels[1..])
  }

  /** All of the name, followed through its pointers, lies below `limit`. */
  predicate Below(b: Buffer, maxlen: nat, at: nat, labels: Labels, limit: nat)
    requires maxlen <= |b| && Denotes(b, maxlen, at, labels)
    decreases |labels|, at
  {
    if b[at] == 0 then at < limit
    else if b[at] >= COMPRESSED then
      at + 2 <= limit && Below(b, maxlen, Join(b, at) - COMPRESSED * 0x100, labels, limit)
    else at + 1 + b[at] <= limit && Below(b, maxlen, at + 1 + b[at], labels[1..], limit)
  }

  /** The pointer of the name, if any, is to a prior occurrence. */
  predicate PointsBefore(b: Buffer, maxlen: nat, at: nat, labels: Labels)
    requires maxlen <= |b| && Denotes(b, maxlen, at, labels)
    decreases |labels|
  {
    if b[at] == 0 then true
    else if b[at] >= COMPRESSED then Below(b, maxlen, Join(b, at) - COMPRESSED * 0x100, labels, at)
    else PointsBefore(b, maxlen, at + 1 + b[at], labels[1..])
  }

  lemma {:induction false} NothingConsumed(b: Buffer, maxlen: nat, at: nat, top: nat, limit: nat, name: Text,
      labels: Labels)
    requires maxlen <= |b| && Denotes(b, maxlen, at, labels) && |name| + |Dotted(labels)| < NAME_MAX
    requires Below(b, maxlen, at, labels, limit) && limit <= top
    ensures Walk(b, maxlen, at, top, name).Some? && Walk(b, maxlen, at, top, name).value.1 == top
    decreases |labels|, at
  {
    hide Walk;
    WalkStep(b, maxlen, at, top, name);
    if b[at] >= COMPRESSED {
      NothingConsumed(b, maxlen, Join(b, at) - COMPRESSED * 0x100, top, limit, name, labels);
    } else if b[at] != 0 {
      NothingConsumed(b, maxlen, at + 1 + b[at], top, limit, name + labels[0] + [DOT], labels[1..]);
    }
  }

  lemma {:induction false} ExtentConsumed(b: Buffer, maxlen: nat, at: nat, name: Text, labels: Labels)
    requires maxlen <= |b| && Denotes(b, maxlen, at, labels) && |name| + |Dotted(labels)| < NAME_MAX
    requires PointsBefore(b, maxlen, at, labels)
    ensures Walk(b, maxlen, at, at, name).Some?
            && Walk(b, maxlen, at, at, name).value.1 == Extent(b, maxlen, at, labels)
    decreases |labels|
  {
    hide Walk;
    WalkStep(b, maxlen, at, at, name);
    if b[at] >= COMPRESSED {
      NothingConsumed(b, maxlen, Join(b, at) - COMPRESSED * 0x100, at + 2, at, name, labels);
    } else if b[at] != 0 {
      ExtentConsumed(b, maxlen, at + 1 + b[at], name + labels[0] + [DOT], labels[1..]);
    }
  }

  // ----- labels in a message

  predicate ValidLabel(l: Text) { 1 <= |l| <= LABEL_MAX && DOT !in l }

  predicate ValidLabels(labels: Labels) { forall k :: 0 <= k < |labels| ==> ValidLabel(labels[k]) }

  function Encode(labels: Labels): Text
    requires ValidLabels(labels)
  {
    if labels == [] then [] else [|labels[0]|] + labels[0] + Encode(labels[1..])
  }

  predicate Placed(b: Buffer, at: nat, code: Text) { at + |code| <= |b| && b[at..at + |code|] == code }

  lemma PlacedParts(b: Buffer, at: nat, x: Text, y: Text)
    requires Placed(b, at, x + y)
    ensures Placed(b, at, x) && Placed(b, at + |x|, y)
  {
    assert b[at..at + |x|] == (x + y)[..|x|];
    assert b[at + |x|..at + |x| + |y|] == (x + y)[|x|..];
  }

  lemma {:induction false} EncodedLength(labels: Labels)
    requires ValidLabels(labels)
    ensures |Encode(labels)| == |Dotted(labels)|
  {
    if labels != [] { EncodedLength(labels[1..]); }
  }

  /** Labels in place before a name that denotes `suffix`: together they denote all the labels. */
  lemma {:induction false} LabelsInPlace(b: Buffer, maxlen: nat, at: nat, labels: Labels, suffix: Labels, limit: nat)
    requires ValidLabels(labels) && maxlen <= |b| && Placed(b, at, Encode(labels))
    requires Denotes(b, maxlen, at + |Encode(labels)|, suffix)
    requires PointsBefore(b, maxlen, at + |Encode(labels)|, suffix)
    ensures Denotes(b, maxlen, at, labels + suffix) && PointsBefore(b, maxlen, at, labels + suffix)
    ensures Extent(b, maxlen, at, labels + suffix) == Extent(b, maxlen, at + |Encode(labels)|, suffix)
    ensures Below(b, maxlen, at + |Encode(labels)|, suffix, limit) && at + |Encode(labels)| <= limit
        ==> Below(b, maxlen, at, labels + suffix, limit)
    decreases |labels|
  {
    hide Denotes, Below, PointsBefore, Extent;
    if labels == [] {
      assert labels + suffix == suffix;
    } else {
      var l, rest := labels[0], labels[1..];
      PlacedParts(b, at, [|l|] + l, Encode(rest));
      LabelsInPlace(b, maxlen, at + 1 + |l|, rest, suffix, limit);
      assert labels + suffix == [l] + (rest + suffix);
      LabelInPlace(b, maxlen, at, l, rest + suffix, limit);
    }
  }

  lemma LabelInPlace(b: Buffer, maxlen: nat, at: nat, l: Text, rest: Labels, limit: nat)
    requires ValidLabel(l) && maxlen <= |b| && Placed(b, at, [|l|] + l) && Denotes(b, maxlen, at + 1 + |l|, rest)
    ensures Denotes(b, maxlen, at, [l] + rest)
    ensures PointsBefore(b, maxlen, at, [l] + rest) == PointsBefore(b, maxlen, at + 1 + |l|, rest)
    ensures Extent(b, maxlen, at, [l] + rest) == Extent(b, maxlen, at + 1 + |l|, rest)
    ensures Below(b, maxlen, at + 1 + |l|, rest, limit) && at + 1 + |l| <= limit ==>
              Below(b, maxlen, at, [l] + rest, limit)
  {
    PlacedParts(b, at, [|l|], l);
    assert b[at] == b[at..at + 1][0];
    assert ([l] + rest)[1..] == rest;
  }

  /** Labels that end with a zero byte, all of them below `limit`. */
  lemma PlainName(b: Buffer, maxlen: nat, at: nat, labels: Labels)
    requires ValidLabels(labels) && maxlen <= |b| && at + |Encode(labels)| <= maxlen
    requires Placed(b, at, Encode(labels) + [0])
    ensures Denotes(b, maxlen, at, labels) && PointsBefore(b, maxlen, at, labels)
    ensures Extent(b, maxlen, at, labels) == at + |Encode(labels)| + 1
    ensures Below(b, maxlen, at, labels, at + |Encode(labels)| + 1)
  {
    var end := at + |Encode(labels)|;
    PlacedParts(b, at, Encode(labels), [0]);
    assert b[end] == b[end..end + 1][0];
    LabelsInPlace(b, maxlen, at, labels, [], end + 1);
    assert labels + [] == labels;
  }

  function Pointer(p: nat): Text
    requires p < 0x4000
  {
    [COMPRESSED + p / 0x100, p % 0x100]
  }

  lemma PointerJoined(b: Buffer, at: nat, p: nat)
    requires at + 1 < |b| && b[at] as int == COMPRESSED + p / 0x100 && b[at + 1] as int == p % 0x100
    ensures Join(b, at) - COMPRESSED * 0x100 == p
  {
  }

  lemma PointerInPlace(b: Buffer, maxlen: nat, at: nat, p: nat, suffix: Labels)
    requires maxlen <= |b| && at + 2 <= maxlen && p < at && p < 0x4000 && Placed(b, at, Pointer(p))
    requires Denotes(b, maxlen, p, suffix) && Below(b, maxlen, p, suffix, at)
    ensures Denotes(b, maxlen, at, suffix) && PointsBefore(b, maxlen, at, suffix)
    ensures Extent(b, maxlen, at, suffix) == at + 2
  {
    assert b[at] == b[at..at + 2][0] && b[at + 1] == b[at..at + 2][1];
    PointerJoined(b, at, p);
  }

  /** The compressed form of section 4.1.4 of RFC 1035: labels and then a pointer to a name that lies
      wholly before.  It reads as the labels followed by that name, and takes the bytes of the labels
      and two more. */
  lemma CompressedName(b: Buffer, maxlen: nat, at: nat, labels: Labels, p: nat, suffix: Labels)
    requires ValidLabels(labels) && maxlen <= |b| && at + |Encode(labels)| + 2 <= maxlen
    requires p < 0x4000 && Denotes(b, maxlen, p, suffix) && Below(b, maxlen, p, suffix, at)
    requires Placed(b, at, Encode(labels) + Pointer(p))
    requires |Dotted(labels + suffix)| < NAME_MAX
    ensures NameAt(b, at, maxlen) == Some((DropDot(Dotted(labels + suffix)), |Encode(labels)| + 2))
  {
    hide Walk, Pointer, Denotes, Below, PointsBefore, Extent, Encode, Dotted;
    var end := at + |Encode(labels)|;
    PlacedParts(b, at, Encode(labels), Pointer(p));
    BelowLess(b, maxlen, p, suffix, at, end);
    PointerInPlace(b, maxlen, end, p, suffix);
    LabelsInPlace(b, maxlen, at, labels, suffix, 0);
    DenotedIsRead(b, maxlen, at, at, [], labels + suffix);
    ExtentConsumed(b, maxlen, at, [], labels + suffix);
    assert [] + Dotted(labels + suffix) == Dotted(labels + suffix);
  }

  lemma {:induction false} BelowLess(b: Buffer, maxlen: nat, at: nat, labels: Labels, low: nat, high: nat)
    requires maxlen <= |b| && Denotes(b, maxlen, at, labels) && Below(b, maxlen, at, labels, low) && low <= high
    ensures Below(b, maxlen, at, labels, high) && at < low
    decreases |labels|, at
  {
    if b[at] >= COMPRESSED {
      BelowLess(b, maxlen, Join(b, at) - COMPRESSED * 0x100, labels, low, high);
    } else if b[at] != 0 {
      BelowLess(b, maxlen, at + 1 + b[at], labels[1..], low, high);
    }
  }

  /** A name without compression reads back whole, if it is short enough. */
  lemma PlainNameReads(b: Buffer, maxlen: nat, at: nat, labels: Labels)
    requires ValidLabels(labels) && maxlen <= |b| && at + |Encode(labels)| + 1 <= maxlen
    requires Placed(b, at, Encode(labels) + [0])
    requires |Dotted(labels)| < NAME_MAX
    ensures NameAt(b, at, maxlen) == Some((DropDot(Dotted(labels)), |Dotted(labels)| + 1))
  {
    hide Walk;
    EncodedLength(labels);
    PlainName(b, maxlen, at, labels);
    DenotedIsRead(b, maxlen, at, at, [], labels);
    ExtentConsumed(b, maxlen, at, [], labels);
    assert [] + Dotted(labels) == Dotted(labels);
  }

  // ----- writing

  /** The bytes written for `rest` when the label `part` has been begun: its length in one byte, and
      as many of its bytes. */
  function Written(part: Text, rest: Text): Text
    decreases rest
  {
    if rest == [] then []
    else if rest[0] == DOT then
      var n := |part| % 0x100;
      [n] + part[..n] + Written([], rest[1..])
    else Written(part + [rest[0]], rest[1..])
  }

  function NameBytes(name: Text): Text { Written([], name + [DOT]) + [0] }

  lemma {:induction false} WritesLabel(part: Text, l: Text, rest: Text)
    requires DOT !in l && |part| + |l| < 0x100
    ensures Written(part, l + [DOT] + rest) == [|part| + |l|] + (part + l) + Written([], rest)
    decreases |l|
  {
    var all := l + [DOT] + rest;
    if l == [] {
      assert all[1..] == rest;
      assert part[..|part|] == part && part + l == part;
    } else {
      assert all[1..] == l[1..] + [DOT] + rest;
      WritesLabel(part + [l[0]], l[1..], rest);
      assert part + [l[0]] + l[1..] == part + l;
    }
  }

  lemma {:induction false} WritesLabels(labels: Labels)
    requires ValidLabels(labels)
    ensures Written([], Dotted(labels)) == Encode(labels)
  {
    if labels != [] {
      var l, rest := labels[0], labels[1..];
      WritesLabel([], l, Dotted(rest));
      WritesLabels(rest);
      assert [] + l == l;
    }
  }

  /** A dotted name is written as its labels. */
  lemma NameBytesAreLabels(labels: Labels)
    requires ValidLabels(labels) && labels != []
    ensures NameBytes(DropDot(Dotted(labels))) == Encode(labels) + [0]
  {
    WritesLabels(labels);
    EndsWithDot(labels);
  }

  lemma {:induction false} EndsWithDot(labels: Labels)
    requires labels != []
    ensures Dotted(labels) != [] && DropDot(Dotted(labels)) + [DOT] == Dotted(labels)
  {
    var d := Dotted(labels);
    if |labels| > 1 {
      EndsWithDot(labels[1..]);
      var e := Dotted(labels[1..]);
      assert d == labels[0] + [DOT] + e;
      assert d[|d| - 1] == e[|e| - 1];
    } else {
      assert labels[1..] == [] && Dotted(labels[1..]) == [];
      assert d == labels[0] + [DOT];
    }
  }

  /** `b` with the bytes `x` at `at`. */
  function Overwrite(b: Buffer, at: nat, x: Text): Buffer
    requires at + |x| <= |b|
  {
    b[..at] + x + b[at + |x|..]
  }

  lemma OverwriteMore(b: Buffer, at: nat, x: Text, y: Text)
    requires at + |x| + |y| <= |b|
    ensures Overwrite(Overwrite(b, at, x), at + |x|, y) == Overwrite(b, at, x + y)
  {
  }

  method PutBytes(buf: array<Octet>, at: nat, x: Text)
    requires at + |x| <= buf.Length
    modifies buf
    ensures buf[..] == Overwrite(old(buf[..]), at, x)
  {
    var k := 0;
    while k < |x|
      invariant k <= |x|
      invariant forall i :: 0 <= i < buf.Length ==> buf[i] == if at <= i < at + k then x[i - at] else old(buf[i])
    {
      buf[at + k] := x[k];
      k := k + 1;
    }
  }

  /** Writes the bytes of a name, if they fit. */
  method PutDomainName(name: Text, buf: array<Octet>, offset: nat, maxlen: nat) returns (ret: nat)
    requires maxlen <= buf.Length
    modifies buf
    ensures maxlen <= offset + |name| + 1 ==> ret == 0 && buf[..] == old(buf[..])
    ensures maxlen > offset + |name| + 1 ==>
              && ret == |NameBytes(name)| && offset + ret <= maxlen
              && buf[..] == Overwrite(old(buf[..]), offset, NameBytes(name))
  {
    hide Written, Overwrite;
    ret := 0;
    if !(maxlen > offset + |name| + 1) { return; }
    ghost var was, done: Text := buf[..], [];
    var namew := name + [DOT];
    var part: Text := [];
    var c := 0;
    OverwriteNothing(was, offset);
    while c < |namew|
      invariant c <= |namew| && ret == |done| && ret + |part| <= c
      invariant Written([], namew) == done + Written(part, namew[c..])
      invariant buf[..] == Overwrite(was, offset, done)
    {
      WrittenStep(part, namew[c..]);
      assert namew[c..][1..] == namew[c + 1..];
      if namew[c] == DOT {
        var n := |part| % 0x100;
        PutBytes(buf, offset + ret, [n]);
        ret := ret + 1;
        PutBytes(buf, offset + ret, part[..n]);
        ret := ret + n;
        OverwriteMore(was, offset, done, [n]);
        OverwriteMore(was, offset, done + [n], part[..n]);
        done := done + [n] + part[..n];
        part := [];
      } else {
        part := part + [namew[c]];
      }
      c := c + 1;
    }
    WrittenStep(part, namew[c..]);
    assert done == Written([], namew);
    PutBytes(buf, offset + ret, [0]);
    OverwriteMore(was, offset, done, [0]);
    ret := ret + 1;
  }

  lemma OverwriteNothing(b: Buffer, at: nat)
    requires at <= |b|
    ensures Overwrite(b, at, []) == b
  {
  }

  lemma WrittenStep(part: Text, rest: Text)
    ensures rest == [] ==> Written(part, rest) == []
    ensures rest != [] && rest[0] == DOT ==>
              var n := |part| % 0x100;
              Written(part, rest) == [n] + part[..n] + Written([], rest[1..])
    ensures rest != [] && rest[0] != DOT ==> Written(part, rest) == Written(part + [rest[0]], rest[1..])
  {
  }
}
