/** Building DNS requests and reading DNS messages. */
module DnsPacket {
  import opened Peg
  import opened Bytes
  import opened DnsName

  const DATA := 12
  const RECURSION_DESIRED := 0x0100
  const CLASS_IN := 1

  type Word = x: nat | x < 0x10000

  function Short(n: Word): (t: Text)
    ensures |t| == 2
  {
    [n / 0x100, n % 0x100]
  }

  // ----- writing

  method PutUnsignedShort(n: Word, buf: array<Octet>, offset: nat, maxlen: nat) returns (ret: nat)
    requires maxlen <= buf.Length
    modifies buf
    ensures maxlen <= offset + 1 ==> ret == 0 && buf[..] == old(buf[..])
    ensures maxlen > offset + 1 ==> ret == 2 && buf[..] == Overwrite(old(buf[..]), offset, Short(n))
  {
    if maxlen > offset + 1 {
      buf[offset], buf[offset + 1] := n / 0x100, n % 0x100;
      return 2;
    }
    return 0;
  }

  function Header(id: Word): Text {
    Short(id) + Short(RECURSION_DESIRED) + Short(1) + Short(0) + Short(0) + Short(0)
  }

  function RequestBytes(id: Word, name: Text, rt: Word): Text {
    Header(id) + NameBytes(name) + Short(rt) + Short(CLASS_IN)
  }

  method PutHeader(id: Word, buf: array<Octet>, maxlen: nat) returns (ok: bool)
    requires maxlen <= buf.Length
    modifies buf
    ensures ok <==> maxlen >= DATA
    ensures ok ==> buf[..] == Overwrite(old(buf[..]), 0, Header(id))
  {
    hide Short, Overwrite;
    ghost var was := buf[..];
    ok := false;
    var tmp := PutUnsignedShort(id, buf, 0, maxlen);
    if tmp < 1 { return; }
    tmp := PutUnsignedShort(RECURSION_DESIRED, buf, 2, maxlen);
    if tmp < 1 { return; }
    OverwriteMore(was, 0, Short(id), Short(RECURSION_DESIRED));
    tmp := PutUnsignedShort(1, buf, 4, maxlen);
    if tmp < 1 { return; }
    OverwriteMore(was, 0, Short(id) + Short(RECURSION_DESIRED), Short(1));
    tmp := PutUnsignedShort(0, buf, 6, maxlen);
    if tmp < 1 { return; }
    OverwriteMore(was, 0, Short(id) + Short(RECURSION_DESIRED) + Short(1), Short(0));
    tmp := PutUnsignedShort(0, buf, 8, maxlen);
    if tmp < 1 { return; }
    OverwriteMore(was, 0, Short(id) + Short(RECURSION_DESIRED) + Short(1) + Short(0), Short(0));
    tmp := PutUnsignedShort(0, buf, 10, maxlen);
    if tmp < 1 { return; }
    OverwriteMore(was, 0, Short(id) + Short(RECURSION_DESIRED) + Short(1) + Short(0) + Short(0), Short(0));
    ok := true;
  }

  /** Writes a request for `name`, or returns 0 if the buffer is too short. */
  method BuildSimpleRequest(id: Word, name: Text, rt: Word, buf: array<Octet>, maxlen: nat) returns (ret: nat)
    requires maxlen <= buf.Length
    modifies buf
    ensures ret != 0 <==> maxlen > DATA + |name| + 1 && maxlen >= |RequestBytes(id, name, rt)|
    ensures ret != 0 ==>
              && ret == |RequestBytes(id, name, rt)|
              && buf[..] == Overwrite(old(buf[..]), 0, RequestBytes(id, name, rt))
  {
    hide Short, Overwrite, Header, NameBytes;
    ghost var was := buf[..];
    ret := 0;
    HeaderLength(id);
    var ok := PutHeader(id, buf, maxlen);
    if !ok { return; }
    var length := DATA;
    var tmp := PutDomainName(name, buf, DATA, maxlen);
    NameNotEmpty(name);
    if tmp < 1 { return; }
    OverwriteMore(was, 0, Header(id), NameBytes(name));
    length := length + tmp;
    tmp := PutUnsignedShort(rt, buf, length, maxlen);
    if tmp < 1 { return; }
    OverwriteMore(was, 0, Header(id) + NameBytes(name), Short(rt));
    length := length + tmp;
    tmp := PutUnsignedShort(CLASS_IN, buf, length, maxlen);
    if tmp < 1 { return; }
    OverwriteMore(was, 0, Header(id) + NameBytes(name) + Short(rt), Short(CLASS_IN));
    ret := length + tmp;
  }

  lemma HeaderLength(id: Word)
    ensures |Header(id)| == DATA
  {
  }

  lemma NameNotEmpty(name: Text)
    ensures |NameBytes(name)| > 0
  {
  }

  // ----- reading

  datatype Query = Query(name: Text, rtype: nat, class_: nat)

  /** `A` is what is read of an answer. */
  datatype Packet<A> = Packet(id: nat, flags: nat, queries: seq<Query>, answers: seq<A>)

  /** How an answer at an offset is read, and how many bytes it takes. */
  type AnswerReader<!A> = (Buffer, nat, nat) -> Option<(A, nat)>

  function QueryAt(b: Buffer, offset: nat, maxlen: nat): (r: Option<(Query, nat)>)
    requires offset <= maxlen <= |b|
    ensures r.Some? ==> offset + r.value.1 <= maxlen
  {
    if !(maxlen - offset > 5) then None else
    match NameAt(b, offset, maxlen)
    case None => None
    case Some((name, n)) =>
      var rtype := ShortAt(b, offset + n, maxlen);
      if rtype.None? then None else
      var class_ := ShortAt(b, offset + n + 2, maxlen);
      if class_.None? then None else Some((Query(name, rtype.value, class_.value), n + 4))
  }

  /** A question about the root, the shortest there is, is read unless it ends the message. */
  lemma RootQuestion(b: Buffer, offset: nat, maxlen: nat)
    requires offset < maxlen <= |b| && b[offset] == 0
    ensures QueryAt(b, offset, maxlen)
         == if offset + 5 < maxlen then Some((Query([], Join(b, offset + 1), Join(b, offset + 3)), 5)) else None
  {
    assert Walk(b, maxlen, offset, offset, []) == Some(([], offset + 1));
  }

  function QueriesAt(b: Buffer, offset: nat, maxlen: nat, count: nat): (r: Option<(seq<Query>, nat)>)
    requires offset <= maxlen <= |b|
    ensures r.Some? ==> offset <= r.value.1 <= maxlen
    decreases count
  {
    if count == 0 then Some(([], offset)) else
    match QueryAt(b, offset, maxlen)
    case None => None
    case Some((q, n)) =>
      match QueriesAt(b, offset + n, maxlen, count - 1)
      case None => None
      case Some((qs, end)) => Some(([q] + qs, end))
  }

  function AnswersAt<A>(answerAt: AnswerReader<A>, b: Buffer, offset: nat, maxlen: nat, count: nat)
      : Option<(seq<A>, nat)>
    decreases count
  {
    if count == 0 then Some(([], offset)) else
    match answerAt(b, offset, maxlen)
    case None => None
    case Some((a, n)) =>
      match AnswersAt(answerAt, b, offset + n, maxlen, count - 1)
      case None => None
      case Some((more, end)) => Some(([a] + more, end))
  }

  /** The message in the first `maxlen` bytes, and the number of bytes it takes. */
  function PacketAt<A>(answerAt: AnswerReader<A>, b: Buffer, maxlen: nat): Option<(Packet<A>, nat)>
    requires maxlen <= |b|
  {
    if maxlen < DATA then None else
    match QueriesAt(b, DATA, maxlen, Join(b, 4))
    case None => None
    case Some((queries, at)) =>
      match AnswersAt(answerAt, b, at, maxlen, Join(b, 6))
      case None => None
      case Some((answers, end)) => Some((Packet(Join(b, 0), Join(b, 2), queries, answers), end))
  }

  // ----- round trip

  lemma ShortRead(b: Buffer, at: nat, n: Word)
    requires Placed(b, at, Short(n))
    ensures Join(b, at) == n
  {
    assert b[at] == b[at..at + 2][0] && b[at + 1] == b[at..at + 2][1];
  }

  /** A request, byte by byte (section 4.1 of RFC 1035). */
  lemma RequestLayout(id: Word, labels: Labels, rt: Word)
    requires ValidLabels(labels) && labels != []
    ensures RequestBytes(id, DropDot(Dotted(labels)), rt) ==
              [id / 0x100, id % 0x100, 0x01, 0x00, 0x00, 0x01, 0x00, 0x00, 0x00, 0x00, 0x00, 0x00]
              + Encode(labels) + [0x00, rt / 0x100, rt % 0x100, 0x00, 0x01]
  {
    hide NameBytes, Dotted, DropDot, Encode;
    NameBytesAreLabels(labels);
  }

  /** A request reads back as what it was built from, to its last byte. */
  lemma RequestReadsBack<A>(answerAt: AnswerReader<A>, b: Buffer, id: Word, labels: Labels, rt: Word)
    requires ValidLabels(labels) && labels != [] && |Dotted(labels)| < NAME_MAX
    requires var bytes := RequestBytes(id, DropDot(Dotted(labels)), rt);
             Placed(b, 0, bytes)
    ensures var name := DropDot(Dotted(labels));
            var bytes := RequestBytes(id, name, rt);
            PacketAt(answerAt, b, |bytes|)
              == Some((Packet(id, RECURSION_DESIRED, [Query(name, rt, CLASS_IN)], []), |bytes|))
  {
    hide Short, NameBytes, Dotted, DropDot, NameAt, QueryAt;
    var name := DropDot(Dotted(labels));
    var bytes := RequestBytes(id, name, rt);
    var maxlen := |bytes|;
    assert bytes == Header(id) + (NameBytes(name) + Short(rt) + Short(CLASS_IN));
    HeaderLength(id);
    PlacedParts(b, 0, Header(id), NameBytes(name) + Short(rt) + Short(CLASS_IN));
    HeaderRead(b, id);
    QueryReadsBack(b, DATA, maxlen, labels, rt);
    OneQuery(b, DATA, maxlen);
    assert AnswersAt(answerAt, b, maxlen, maxlen, 0) == Some(([], maxlen));
  }

  lemma OneQuery(b: Buffer, at: nat, maxlen: nat)
    requires at <= maxlen <= |b| && QueryAt(b, at, maxlen).Some?
    ensures var (q, n) := QueryAt(b, at, maxlen).value;
            QueriesAt(b, at, maxlen, 1) == Some(([q], at + n))
  {
    hide QueryAt;
    var (q, n) := QueryAt(b, at, maxlen).value;
    assert QueriesAt(b, at + n, maxlen, 1 - 1) == Some(([], at + n));
    assert [q] + [] == [q];
  }

  lemma QueryReadsBack(b: Buffer, at: nat, maxlen: nat, labels: Labels, rt: Word)
    requires ValidLabels(labels) && labels != [] && |Dotted(labels)| < NAME_MAX && maxlen <= |b|
    requires var bytes := NameBytes(DropDot(Dotted(labels))) + Short(rt) + Short(CLASS_IN);
             Placed(b, at, bytes) && at + |bytes| == maxlen
    ensures QueryAt(b, at, maxlen) == Some((Query(DropDot(Dotted(labels)), rt, CLASS_IN), maxlen - at))
  {
    hide Short, Encode, Dotted, DropDot, NameAt, NameBytes;
    var code := NameBytes(DropDot(Dotted(labels)));
    NameBytesAreLabels(labels);
    EncodedLength(labels);
    EndsWithDot(labels);
    PlacedParts(b, at, code + Short(rt), Short(CLASS_IN));
    PlacedParts(b, at, code, Short(rt));
    PlainNameReads(b, maxlen, at, labels);
    ShortRead(b, at + |code|, rt);
    ShortRead(b, at + |code| + 2, CLASS_IN);
  }

  lemma HeaderRead(b: Buffer, id: Word)
    requires Placed(b, 0, Header(id))
    ensures |b| >= DATA && Join(b, 0) == id && Join(b, 2) == RECURSION_DESIRED
    ensures Join(b, 4) == 1 && Join(b, 6) == 0
  {
    HeaderLength(id);
    forall k | 0 <= k < DATA ensures b[k] == Header(id)[k] { assert b[k] == b[0..DATA][k]; }
  }

  // ----- whole messages

  /** `xs` are read one after the other, the `k`-th one between `ends[k]` and `ends[k + 1]`. */
  ghost predicate InRow<A>(readAt: AnswerReader<A>, b: Buffer, maxlen: nat, ends: seq<nat>, xs: seq<A>) {
    && |ends| == |xs| + 1
    && forall k :: 0 <= k < |xs| ==>
         ends[k] <= ends[k + 1] && readAt(b, ends[k], maxlen) == Some((xs[k], ends[k + 1] - ends[k]))
  }

  ghost predicate ReadsInRow<A>(readAt: AnswerReader<A>, b: Buffer, maxlen: nat, from: nat, xs: seq<A>, to: nat) {
    exists ends :: InRow(readAt, b, maxlen, ends, xs) && ends[0] == from && ends[|xs|] == to
  }

  lemma RowOfNone<A>(readAt: AnswerReader<A>, b: Buffer, maxlen: nat, from: nat)
    ensures ReadsInRow(readAt, b, maxlen, from, [], from)
  {
    assert InRow(readAt, b, maxlen, [from], []);
  }

  lemma RowOfMore<A>(readAt: AnswerReader<A>, b: Buffer, maxlen: nat, from: nat, x: A, mid: nat, xs: seq<A>, to: nat)
    requires from <= mid && readAt(b, from, maxlen) == Some((x, mid - from))
    requires ReadsInRow(readAt, b, maxlen, mid, xs, to)
    ensures ReadsInRow(readAt, b, maxlen, from, [x] + xs, to)
  {
    var ends :| InRow(readAt, b, maxlen, ends, xs) && ends[0] == mid && ends[|xs|] == to;
    assert InRow(readAt, b, maxlen, [from] + ends, [x] + xs);
  }

  /** What is read `count` times is what stands in a row. */
  lemma {:induction false} AnswersExactly<A>(readAt: AnswerReader<A>, b: Buffer, from: nat, maxlen: nat, xs: seq<A>,
      to: nat)
    ensures AnswersAt(readAt, b, from, maxlen, |xs|) == Some((xs, to)) <==> ReadsInRow(readAt, b, maxlen, from, xs, to)
    decreases |xs|
  {
    if xs == [] {
      RowOfNone(readAt, b, maxlen, from);
    } else {
      var rest := xs[1..];
      if AnswersAt(readAt, b, from, maxlen, |xs|) == Some((xs, to)) {
        var (x, n) := readAt(b, from, maxlen).value;
        var (more, end) := AnswersAt(readAt, b, from + n, maxlen, |xs| - 1).value;
        assert more == rest && x == xs[0];
        AnswersExactly(readAt, b, from + n, maxlen, rest, to);
        RowOfMore(readAt, b, maxlen, from, x, from + n, rest, to);
        assert [x] + rest == xs;
      }
      if ReadsInRow(readAt, b, maxlen, from, xs, to) {
        var ends :| InRow(readAt, b, maxlen, ends, xs) && ends[0] == from && ends[|xs|] == to;
        assert readAt(b, ends[0], maxlen) == Some((xs[0], ends[1] - ends[0]));
        RestOfRow(readAt, b, maxlen, ends, xs);
        AnswersExactly(readAt, b, ends[1], maxlen, rest, to);
        assert [xs[0]] + rest == xs;
      }
    }
  }

  lemma RestOfRow<A>(readAt: AnswerReader<A>, b: Buffer, maxlen: nat, ends: seq<nat>, xs: seq<A>)
    requires InRow(readAt, b, maxlen, ends, xs) && xs != []
    ensures ReadsInRow(readAt, b, maxlen, ends[1], xs[1..], ends[|xs|])
  {
    forall k | 0 <= k < |xs[1..]|
      ensures ends[1..][k] <= ends[1..][k + 1]
      ensures readAt(b, ends[1..][k], maxlen) == Some((xs[1..][k], ends[1..][k + 1] - ends[1..][k]))
    {
      assert readAt(b, ends[k + 1], maxlen) == Some((xs[k + 1], ends[k + 2] - ends[k + 1]));
    }
    assert InRow(readAt, b, maxlen, ends[1..], xs[1..]);
  }

  lemma {:induction false} CountOfAnswers<A>(readAt: AnswerReader<A>, b: Buffer, from: nat, maxlen: nat, count: nat)
    ensures var r := AnswersAt(readAt, b, from, maxlen, count); r.Some? ==> |r.value.0| == count
    decreases count
  {
    if count > 0 && readAt(b, from, maxlen).Some? {
      CountOfAnswers(readAt, b, from + readAt(b, from, maxlen).value.1, maxlen, count - 1);
    }
  }

  /** A query is read as an answer is, by another reader. */
  function QueryReader(b: Buffer, offset: nat, maxlen: nat): Option<(Query, nat)> {
    if offset <= maxlen <= |b| then QueryAt(b, offset, maxlen) else None
  }

  lemma {:induction false} QueriesAsAnswers(b: Buffer, offset: nat, maxlen: nat, count: nat)
    requires offset <= maxlen <= |b|
    ensures QueriesAt(b, offset, maxlen, count) == AnswersAt(QueryReader, b, offset, maxlen, count)
    decreases count
  {
    hide QueryAt;
    if count > 0 && QueryAt(b, offset, maxlen).Some? {
      QueriesAsAnswers(b, offset + QueryAt(b, offset, maxlen).value.1, maxlen, count - 1);
    }
  }

  /** A message is read if and only if all its queries and then all its answers are, as many as the
      header counts in the third and in the fourth of its numbers; the other two counts do not matter. */
  lemma PacketExactly<A>(answerAt: AnswerReader<A>, b: Buffer, maxlen: nat, p: Packet<A>, end: nat)
    requires maxlen <= |b|
    ensures PacketAt(answerAt, b, maxlen) == Some((p, end)) <==>
              && maxlen >= DATA && p.id == Join(b, 0) && p.flags == Join(b, 2)
              && |p.queries| == Join(b, 4) && |p.answers| == Join(b, 6)
              && exists at: nat :: ReadsInRow(QueryReader, b, maxlen, DATA, p.queries, at)
                                && ReadsInRow(answerAt, b, maxlen, at, p.answers, end)
  {
    hide QueriesAt, AnswersAt, ReadsInRow;
    if maxlen >= DATA {
      var queryCount, answerCount := Join(b, 4), Join(b, 6);
      QueriesAsAnswers(b, DATA, maxlen, queryCount);
      CountOfAnswers(QueryReader, b, DATA, maxlen, queryCount);
      forall at: nat
        ensures |p.queries| == queryCount ==>
                  (QueriesAt(b, DATA, maxlen, queryCount) == Some((p.queries, at)) <==>
                     ReadsInRow(QueryReader, b, maxlen, DATA, p.queries, at))
        ensures |p.answers| == answerCount ==>
                  (AnswersAt(answerAt, b, at, maxlen, answerCount) == Some((p.answers, end)) <==>
                     ReadsInRow(answerAt, b, maxlen, at, p.answers, end))
      {
        AnswersExactly(QueryReader, b, DATA, maxlen, p.queries, at);
        AnswersExactly(answerAt, b, at, maxlen, p.answers, end);
        CountOfAnswers(answerAt, b, at, maxlen, answerCount);
      }
      if QueriesAt(b, DATA, maxlen, queryCount).Some? {
        CountOfAnswers(answerAt, b, QueriesAt(b, DATA, maxlen, queryCount).value.1, maxlen, answerCount);
      }
    }
  }

  datatype Question = Question(labels: Labels, rtype: Word, class_: Word)

  predicate ValidQuestion(q: Question) { ValidLabels(q.labels) && q.labels != [] && |Dotted(q.labels)| < NAME_MAX }

  function QuestionBytes(q: Question): Text
    requires ValidQuestion(q)
  {
    Encode(q.labels) + [0] + Short(q.rtype) + Short(q.class_)
  }

  function QuestionsBytes(qs: seq<Question>): Text
    requires forall q :: q in qs ==> ValidQuestion(q)
  {
    if qs == [] then [] else QuestionBytes(qs[0]) + QuestionsBytes(qs[1..])
  }

  function Queries(qs: seq<Question>): seq<Query> {
    seq(|qs|, k requires 0 <= k < |qs| => Query(DropDot(Dotted(qs[k].labels)), qs[k].rtype, qs[k].class_))
  }

  function HeaderOf(id: Word, flags: Word, questions: Word, answers: Word, authorities: Word, more: Word): Text {
    Short(id) + Short(flags) + Short(questions) + Short(answers) + Short(authorities) + Short(more)
  }

  lemma QuestionRead(b: Buffer, at: nat, maxlen: nat, q: Question)
    requires ValidQuestion(q) && Placed(b, at, QuestionBytes(q)) && at + |QuestionBytes(q)| <= maxlen <= |b|
    ensures QueryAt(b, at, maxlen)
         == Some((Query(DropDot(Dotted(q.labels)), q.rtype, q.class_), |QuestionBytes(q)|))
  {
    hide Short, Encode, Dotted, DropDot, NameAt;
    var name := Encode(q.labels) + [0];
    EncodedLength(q.labels);
    EndsWithDot(q.labels);
    PlacedParts(b, at, name + Short(q.rtype), Short(q.class_));
    PlacedParts(b, at, name, Short(q.rtype));
    PlainNameReads(b, maxlen, at, q.labels);
    ShortRead(b, at + |name|, q.rtype);
    ShortRead(b, at + |name| + 2, q.class_);
  }

  lemma {:induction false} QuestionsRead(b: Buffer, at: nat, maxlen: nat, qs: seq<Question>)
    requires forall q :: q in qs ==> ValidQuestion(q)
    requires Placed(b, at, QuestionsBytes(qs)) && at + |QuestionsBytes(qs)| <= maxlen <= |b|
    ensures ReadsInRow(QueryReader, b, maxlen, at, Queries(qs), at + |QuestionsBytes(qs)|)
    decreases |qs|
  {
    hide ReadsInRow, QuestionBytes, QueryAt, Dotted, DropDot, ValidQuestion;
    if qs == [] {
      RowOfNone(QueryReader, b, maxlen, at);
      assert Queries(qs) == [];
    } else {
      var q, rest := qs[0], qs[1..];
      PlacedParts(b, at, QuestionBytes(q), QuestionsBytes(rest));
      QuestionRead(b, at, maxlen, q);
      QuestionsRead(b, at + |QuestionBytes(q)|, maxlen, rest);
      var query := Query(DropDot(Dotted(q.labels)), q.rtype, q.class_);
      RowOfMore(QueryReader, b, maxlen, at, query, at + |QuestionBytes(q)|, Queries(rest),
          at + |QuestionsBytes(qs)|);
      assert Queries(qs) == [query] + Queries(rest);
    }
  }

  /** A message with any id, flags, questions and answers reads back as it was written, and takes the
      bytes up to the end of the last answer. */
  lemma MessageReadsBack<A>(answerAt: AnswerReader<A>, b: Buffer, maxlen: nat, id: Word, flags: Word,
      qs: seq<Question>, answers: seq<A>, authorities: Word, more: Word, end: nat)
    requires |qs| < 0x10000 && |answers| < 0x10000 && forall q :: q in qs ==> ValidQuestion(q)
    requires Placed(b, 0, HeaderOf(id, flags, |qs|, |answers|, authorities, more) + QuestionsBytes(qs))
    requires DATA + |QuestionsBytes(qs)| <= maxlen <= |b|
    requires ReadsInRow(answerAt, b, maxlen, DATA + |QuestionsBytes(qs)|, answers, end)
    ensures PacketAt(answerAt, b, maxlen) == Some((Packet(id, flags, Queries(qs), answers), end))
  {
    hide ReadsInRow, QuestionsBytes, PacketAt, Short, ValidQuestion;
    var header := HeaderOf(id, flags, |qs|, |answers|, authorities, more);
    PlacedParts(b, 0, header, QuestionsBytes(qs));
    HeaderOfRead(b, id, flags, |qs|, |answers|, authorities, more);
    QuestionsRead(b, DATA, maxlen, qs);
    PacketExactly(answerAt, b, maxlen, Packet(id, flags, Queries(qs), answers), end);
  }

  lemma HeaderOfRead(b: Buffer, id: Word, flags: Word, questions: Word, answers: Word, authorities: Word, more: Word)
    requires Placed(b, 0, HeaderOf(id, flags, questions, answers, authorities, more))
    ensures |HeaderOf(id, flags, questions, answers, authorities, more)| == DATA <= |b|
    ensures Join(b, 0) == id && Join(b, 2) == flags && Join(b, 4) == questions && Join(b, 6) == answers
  {
    hide Short;
    var h2 := Short(authorities) + Short(more);
    assert HeaderOf(id, flags, questions, answers, authorities, more)
        == Short(id) + (Short(flags) + (Short(questions) + (Short(answers) + h2)));
    PlacedParts(b, 0, Short(id), Short(flags) + (Short(questions) + (Short(answers) + h2)));
    PlacedParts(b, 2, Short(flags), Short(questions) + (Short(answers) + h2));
    PlacedParts(b, 4, Short(questions), Short(answers) + h2);
    PlacedParts(b, 6, Short(answers), h2);
    ShortRead(b, 0, id);
    ShortRead(b, 2, flags);
    ShortRead(b, 4, questions);
    ShortRead(b, 6, answers);
  }

  // ----- the reader

  method ParseQuery(b: Buffer, offset: nat, maxlen: nat) returns (q: Query, ret: nat)
    requires offset <= maxlen <= |b|
    ensures QueryAt(b, offset, maxlen) == if ret == 0 then None else Some((q, ret))
  {
    hide NameAt;
    q, ret := Query([], 0, 0), 0;
    if maxlen - offset > 5 {
      var name, n := ParseDomainName(b, offset, maxlen);
      if n < 1 { return; }
      var rtype := ShortAt(b, offset + n, maxlen);
      if rtype.None? { return; }
      var class_ := ShortAt(b, offset + n + 2, maxlen);
      if class_.None? { return; }
      q, ret := Query(name, rtype.value, class_.value), n + 4;
    }
  }

  /** Reads a whole message: the queries one after the other, then the answers. */
  method ParsePacket<A>(answerAt: AnswerReader<A>, b: Buffer, maxlen: nat) returns (r: Option<(Packet<A>, nat)>)
    requires maxlen <= |b|
    ensures r == PacketAt(answerAt, b, maxlen)
  {
    hide QueryAt;
    if maxlen < DATA { return None; }
    var id, flags := Join(b, 0), Join(b, 2);
    var queryCount, answerCount := Join(b, 4), Join(b, 6);
    var ret: nat := DATA;
    var queries: seq<Query>, i := [], 0;
    BeforeNothing(QueriesAt(b, DATA, maxlen, queryCount));
    while i < queryCount
      invariant i <= queryCount && DATA <= ret <= maxlen
      invariant QueriesAt(b, DATA, maxlen, queryCount) == Before(queries, QueriesAt(b, ret, maxlen, queryCount - i))
    {
      var q, n := ParseQuery(b, ret, maxlen);
      if n < 1 { return None; }
      BeforeMore(queries, q, QueriesAt(b, ret + n, maxlen, queryCount - i - 1));
      queries := queries + [q];
      ret := ret + n;
      i := i + 1;
    }
    assert queries + [] == queries;
    ghost var at := ret;
    var answers: seq<A> := [];
    i := 0;
    BeforeNothing(AnswersAt(answerAt, b, at, maxlen, answerCount));
    while i < answerCount
      invariant i <= answerCount
      invariant AnswersAt(answerAt, b, at, maxlen, answerCount)
             == Before(answers, AnswersAt(answerAt, b, ret, maxlen, answerCount - i))
    {
      var a := answerAt(b, ret, maxlen);
      if a.None? { return None; }
      BeforeMore(answers, a.value.0, AnswersAt(answerAt, b, ret + a.value.1, maxlen, answerCount - i - 1));
      answers := answers + [a.value.0];
      ret := ret + a.value.1;
      i := i + 1;
    }
    assert answers + [] == answers;
    r := Some((Packet(id, flags, queries, answers), ret));
  }

  /** A result with the elements already read put before it. */
  function Before<T>(read: seq<T>, rest: Option<(seq<T>, nat)>): Option<(seq<T>, nat)> {
    match rest
    case None => None
    case Some((more, end)) => Some((read + more, end))
  }

  lemma BeforeNothing<T>(rest: Option<(seq<T>, nat)>)
    ensures Before([], rest) == rest
  {
    if rest.Some? { assert [] + rest.value.0 == rest.value.0; }
  }

  lemma BeforeMore<T>(read: seq<T>, x: T, rest: Option<(seq<T>, nat)>)
    ensures Before(read, Before([x], rest)) == Before(read + [x], rest)
  {
    if rest.Some? { assert read + ([x] + rest.value.0) == read + [x] + rest.value.0; }
  }
}
