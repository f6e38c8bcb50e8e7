module CodeExamples {
  /**
   The code of small patterns, one for each way of coding a tree.  What the optimizations leave out is
   not needed for right results, so no theorem about results asks for them; here they are written out.
   */

  import opened Peg
  import opened Analysis
  import opened Machine
  import opened CodeGen
  import opened LoopUnderOpt

  const N := Mode([], true, false)

  /** 'a' 'b' */
  const AB := TSeq(TChar(A), TChar(B))

  /** 'a' 'c' */
  const AC := TSeq(TChar(A), TChar(C))

  /** The code of a pattern without a grammar, before the last pass and without its end. */
  ghost function CodeOf(t: Tree): Code { Gen(N, t, false, NoTest, FULLSET) }

  lemma OnChar(c: Byte, fl: Charset)
    ensures First([], TChar(c), fl, DEPTH) == FirstSet(false, {c}) && HeadFail([], TChar(c), DEPTH)
  {
  }

  lemma CharCode(c: Byte, fl: Charset)
    ensures Gen(N, TChar(c), false, NoTest, fl) == Emit(IChar(c))
    ensures Gen(N, TChar(c), false, CharTest(c), fl) == Emit(IAny)
  {
    hide Emit;
  }

  lemma Tested(a: Byte)
    ensures TestInstr({a}, 0) == ITestChar(a, 0)
    ensures TestOf({a}, false) == CharTest(a) && TestSize({a}, false) == 2
    ensures forall off: int :: CodeTest({a}, false, off) == Emit(ITestChar(a, off))
  {
    SingleType(a);
    hide Emit;
  }

  lemma OnPair(b: Byte, fl: Charset)
    ensures var p := TSeq(TChar(A), TChar(b));
            && First([], p, fl, DEPTH) == FirstSet(false, {A}) && !HeadFail([], p, DEPTH)
            && Gen(N, p, false, NoTest, fl) == Emit(IChar(A)) + Emit(IChar(b))
            && Gen(N, p, false, CharTest(A), fl) == Emit(IAny) + Emit(IChar(b))
  {
    PairFirst(b, fl);
    var follow := SeqFollow(N, TChar(A), TChar(b), fl);
    CharCode(A, follow);
    CharCode(b, fl);
    assert forall tt :: SeqTest(N, TChar(A), tt) == NoTest;
    hide First, HeadFail, SeqFollow, SeqTest, CodeChar, Emit;
  }

  lemma PairFirst(b: Byte, fl: Charset)
    ensures var p := TSeq(TChar(A), TChar(b));
            First([], p, fl, DEPTH) == FirstSet(false, {A}) && !HeadFail([], p, DEPTH)
  {
    assert !CheckAux([], TChar(A), PEnullable, DEPTH, true) && !CheckAux([], TChar(b), PEnofail, DEPTH, false);
  }

  // ----- choices

  /** A choice coded with a test for one character. */
  lemma TestedChoiceText(p1: Tree, p2: Tree, a: Byte, c1: Code, c2: Code)
    requires TestedChoice(N, p1, p2, FULLSET) && First([], p1, FULLSET, DEPTH).cs == {a} && !p2.TTrue?
    requires Gen(N, p1, false, CharTest(a), FULLSET) == c1 && Gen(N, p2, false, NoTest, FULLSET) == c2
    ensures CodeOf(TChoice(p1, p2)) == Emit(ITestChar(a, 4 + |c1|)) + c1 + Emit(IJmp(2 + |c2|)) + c2
  {
    ChoiceIs(p1, p2);
    Tested(a);
    hide TestedChoice, First, HeadFail, CodeTest, TestOf, TestSize, Emit, Gen, CodeOf;
  }

  lemma ChoiceIs(p1: Tree, p2: Tree)
    ensures CodeOf(TChoice(p1, p2)) == GenChoice(N, p1, p2, false, FULLSET)
  {
    hide GenChoice;
  }

  /** A choice left open under a test for one character. */
  lemma OpenChoiceText(p1: Tree, p2: Tree, a: Byte, c1: Code, c2: Code)
    requires !TestedChoice(N, p1, p2, FULLSET) && First([], p1, FULLSET, DEPTH) == FirstSet(false, {a}) && !p2.TTrue?
    requires Gen(N, p1, false, CharTest(a), FULLSET) == c1 && Gen(N, p2, false, NoTest, FULLSET) == c2
    ensures CodeOf(TChoice(p1, p2))
         == Emit(ITestChar(a, 6 + |c1|)) + Emit(IChoice(4 + |c1|)) + c1 + Emit(ICommit(2 + |c2|)) + c2
  {
    ChoiceIs(p1, p2);
    Tested(a);
    hide TestedChoice, First, HeadFail, CodeTest, TestOf, TestSize, Emit, Gen, CodeOf;
  }

  /** 'a' / 'b': headfail, so a test is enough. */
  lemma HeadFailChoice()
    ensures CodeOf(TChoice(TChar(A), TChar(B)))
         == Emit(ITestChar(A, 5)) + Emit(IAny) + Emit(IJmp(3)) + Emit(IChar(B))
  {
    OnChar(A, FULLSET);
    CharCode(A, FULLSET);
    CharCode(B, FULLSET);
    hide First, HeadFail, Gen, CodeOf, Emit;
    TestedChoiceText(TChar(A), TChar(B), A, Emit(IAny), Emit(IChar(B)));
  }

  /** 'a'^-1: nothing to jump over. */
  lemma Optional()
    ensures CodeOf(TChoice(TChar(A), TTrue)) == Emit(ITestChar(A, 3)) + Emit(IAny)
  {
    ChoiceIs(TChar(A), TTrue);
    OnChar(A, FULLSET);
    CharCode(A, FULLSET);
    Tested(A);
    NothingCode();
    hide First, HeadFail, CodeTest, TestOf, TestSize, Emit, Gen, CodeOf;
  }

  lemma NothingCode()
    ensures Gen(N, TTrue, false, NoTest, FULLSET) == []
  {
  }

  /** 'a' 'b' / 'c': what starts the one cannot start the other. */
  lemma DisjointChoice()
    ensures CodeOf(TChoice(AB, TChar(C)))
         == Emit(ITestChar(A, 6)) + (Emit(IAny) + Emit(IChar(B))) + Emit(IJmp(3)) + Emit(IChar(C))
  {
    OnPair(B, FULLSET);
    OnChar(C, FULLSET);
    CharCode(C, FULLSET);
    hide First, HeadFail, Gen, CodeOf, Emit;
    TestedChoiceText(AB, TChar(C), A, Emit(IAny) + Emit(IChar(B)), Emit(IChar(C)));
  }

  /** 'a' 'b' / 'a' 'c': a choice is left open for the second alternative. */
  lemma OpenChoice()
    ensures CodeOf(TChoice(AB, AC))
         == Emit(ITestChar(A, 8)) + Emit(IChoice(6)) + (Emit(IAny) + Emit(IChar(B))) + Emit(ICommit(4))
            + (Emit(IChar(A)) + Emit(IChar(C)))
  {
    OnPair(B, FULLSET);
    OnPair(C, FULLSET);
    hide First, HeadFail, Gen, CodeOf, Emit;
    assert A in {A};
    OpenChoiceText(AB, AC, A, Emit(IAny) + Emit(IChar(B)), Emit(IChar(A)) + Emit(IChar(C)));
  }

  /** ['a' 'b'] / 'a': a set that was tested for is not compared again. */
  lemma SetUnderTest()
    ensures CodeOf(TChoice(TSet({A, B}), TChar(A)))
         == Emit(ITestSet({A, B}, 13)) + Emit(IAny) + Emit(IJmp(3)) + Emit(IChar(A))
  {
    var p := TSet({A, B});
    ChoiceIs(p, TChar(A));
    CharCode(A, FULLSET);
    PairType();
    OnSet({A, B});
    hide First, HeadFail, CharsetType, Emit, CodeOf;
    assert Gen(N, p, false, SetTest({A, B}), FULLSET) == Emit(IAny);
    hide Gen;
  }

  lemma OnSet(cs: Charset)
    ensures HeadFail([], TSet(cs), DEPTH) && First([], TSet(cs), FULLSET, DEPTH).cs == cs
  {
  }

  // ----- repetitions

  lemma LoopIs(p: Tree, fl: Charset)
    ensures Gen(N, TRep(p), false, NoTest, fl) == GenRep(N, p, false, fl)
  {
    hide GenRep;
  }

  /** 'a'^0 is a span. */
  lemma CharLoop()
    ensures CodeOf(TRep(TChar(A))) == Emit(ISpan({A}))
  {
    LoopIs(TChar(A), FULLSET);
    hide First, HeadFail, Emit, Gen;
  }

  /** A loop with an open choice, under a test for one character. */
  lemma OpenLoopText(p: Tree, fl: Charset, a: Byte, c: Code)
    requires !TestedLoop(N, p, fl) && ToCharset(p).None? && First([], p, FULLSET, DEPTH) == FirstSet(false, {a})
    requires Gen(N, p, false, NoTest, FULLSET) == c
    ensures GenRep(N, p, false, fl)
         == Emit(ITestChar(a, 6 + |c|)) + Emit(IChoice(4 + |c|)) + c + Emit(IPartialCommit(-|c|))
  {
    Tested(a);
    hide First, HeadFail, TestedLoop, ToCharset, Gen, CodeTest, TestOf, TestSize, Emit;
  }

  /** A loop that a test for one character guards. */
  lemma TestedLoopText(p: Tree, fl: Charset, a: Byte, c: Code)
    requires TestedLoop(N, p, fl) && ToCharset(p).None? && First([], p, FULLSET, DEPTH).cs == {a}
    requires Gen(N, p, false, CharTest(a), FULLSET) == c
    ensures GenRep(N, p, false, fl) == Emit(ITestChar(a, 4 + |c|)) + c + Emit(IJmp(-2 - |c|))
  {
    Tested(a);
    hide First, HeadFail, TestedLoop, ToCharset, Gen, CodeTest, TestOf, TestSize, Emit;
  }

  /** ('a' 'b')^0: anything may follow, so every round moves an open choice. */
  lemma OpenLoop()
    ensures CodeOf(TRep(AB))
         == Emit(ITestChar(A, 8)) + Emit(IChoice(6)) + (Emit(IChar(A)) + Emit(IChar(B))) + Emit(IPartialCommit(-2))
  {
    OnPair(B, FULLSET);
    LoopIs(AB, FULLSET);
    NotFull(A);
    hide First, HeadFail, Gen, GenRep, Emit;
    OpenLoopText(AB, FULLSET, A, Emit(IChar(A)) + Emit(IChar(B)));
  }

  /** ('a' 'b')^0 'c': what follows cannot start another round. */
  lemma DisjointLoop()
    ensures CodeOf(TSeq(TRep(AB), TChar(C)))
         == Emit(ITestChar(A, 6)) + (Emit(IAny) + Emit(IChar(B))) + Emit(IJmp(-4)) + Emit(IChar(C))
  {
    OnPair(B, FULLSET);
    OnChar(C, FULLSET);
    CharCode(C, FULLSET);
    hide First, HeadFail, Gen, GenRep, Emit, CodeOf;
    TestedLoopText(AB, {C}, A, Emit(IAny) + Emit(IChar(B)));
    LoopThen(AB, TChar(C), GenRep(N, AB, false, {C}), Emit(IChar(C)));
  }

  /** A repetition is compiled with what follows it in mind. */
  lemma LoopThen(body: Tree, p: Tree, loop: Code, c: Code)
    requires Gen(N, p, false, NoTest, FULLSET) == c
    requires GenRep(N, body, false, First([], p, FULLSET, DEPTH).cs) == loop
    ensures CodeOf(TSeq(TRep(body), p)) == loop + c
  {
    hide First, HeadFail, GenRep, FixedLen, Gen, CodeOf;
    LoopIs(body, First([], p, FULLSET, DEPTH).cs);
    SeqIs(TRep(body), p);
  }

  lemma SeqIs(p1: Tree, p2: Tree)
    ensures CodeOf(TSeq(p1, p2))
         == Gen(N, p1, false, NoTest, SeqFollow(N, p1, p2, FULLSET)) + Gen(N, p2, false, NoTest, FULLSET)
  {
    assert SeqTest(N, p1, NoTest) == NoTest;
    hide SeqTest, SeqFollow, GenChoice, GenRep, GenNot, GenAnd, GrammarCode;
  }

  // ----- predicates

  /** Not a headfail pattern is a test and a failure. */
  lemma NotText(p: Tree, cs: Charset)
    requires HeadFail([], p, DEPTH) && First([], p, FULLSET, DEPTH).cs == cs
    ensures CodeOf(TNot(p)) == Emit(TestInstr(cs, Size(TestInstr(cs, 0)) + 1)) + Emit(IFail)
  {
    NotIs(p);
    HeadFailNeedsChar([], p, FULLSET, DEPTH);
    hide First, HeadFail, CharsetType, Emit, Gen, CodeOf;
  }

  lemma NotIs(p: Tree)
    ensures CodeOf(TNot(p)) == GenNot(N, p)
  {
    hide GenNot;
  }

  /** !'a', !&'a', !('a' 'b'^0), !. and !(nothing at all): no choice. */
  lemma NotHeadFail()
    ensures CodeOf(TNot(TChar(A))) == Emit(ITestChar(A, 3)) + Emit(IFail)
    ensures CodeOf(TNot(TAnd(TChar(A)))) == Emit(ITestChar(A, 3)) + Emit(IFail)
    ensures CodeOf(TNot(TSeq(TChar(A), TRep(TChar(B))))) == Emit(ITestChar(A, 3)) + Emit(IFail)
    ensures CodeOf(TNot(TAny)) == Emit(ITestAny(3)) + Emit(IFail)
    ensures CodeOf(TNot(TFalse)) == Emit(IJmp(3)) + Emit(IFail)
  {
    HeadsOfA();
    SingleType(A);
    FullType();
    hide First, HeadFail, CharsetType, Emit, CodeOf;
    NotText(TChar(A), {A});
    NotText(TAnd(TChar(A)), {A});
    NotText(TSeq(TChar(A), TRep(TChar(B))), {A});
    NotText(TAny, FULLSET);
    NotText(TFalse, {});
  }

  lemma HeadsOfA()
    ensures HeadFail([], TChar(A), DEPTH) && First([], TChar(A), FULLSET, DEPTH).cs == {A}
    ensures HeadFail([], TAnd(TChar(A)), DEPTH) && First([], TAnd(TChar(A)), FULLSET, DEPTH).cs == {A}
    ensures var p := TSeq(TChar(A), TRep(TChar(B)));
            HeadFail([], p, DEPTH) && First([], p, FULLSET, DEPTH).cs == {A}
    ensures HeadFail([], TAny, DEPTH) && First([], TAny, FULLSET, DEPTH).cs == FULLSET
    ensures HeadFail([], TFalse, DEPTH) && First([], TFalse, FULLSET, DEPTH).cs == {}
  {
    FullHasAll(A);
    assert {A} * FULLSET == {A};
    assert !Nullable([], TChar(A), DEPTH) && Nofail([], TRep(TChar(B)), DEPTH);
    OnChar(A, FULLSET);
  }

  /** !('a' / 'b') is !['a' 'b']. */
  lemma NotSet()
    ensures CodeOf(TNot(TSet({A, B}))) == Emit(ITestSet({A, B}, 11)) + Emit(IFail)
    ensures CodeOf(TNot(TChoice(TChar(A), TChar(B)))) == Emit(ITestSet({A, B}, 11)) + Emit(IFail)
  {
    var p := TChoice(TChar(A), TChar(B));
    PairType();
    OnSet({A, B});
    HeadOfTwo();
    hide First, HeadFail, CharsetType, Emit, CodeOf;
    NotText(TSet({A, B}), {A, B});
    NotText(p, {A, B});
  }

  lemma HeadOfTwo()
    ensures var p := TChoice(TChar(A), TChar(B)); HeadFail([], p, DEPTH) && First([], p, FULLSET, DEPTH).cs == {A, B}
  {
    OnChar(A, FULLSET);
    OnChar(B, FULLSET);
    assert {A} + {B} == {A, B};
  }

  /** !('a' 'b') needs a choice. */
  lemma NotPair()
    ensures CodeOf(TNot(AB))
         == Emit(ITestChar(A, 7)) + Emit(IChoice(5)) + (Emit(IChar(A)) + Emit(IChar(B))) + Emit(IFailTwice)
  {
    NotIs(AB);
    OnPair(B, FULLSET);
    Tested(A);
    hide First, HeadFail, CodeTest, TestOf, TestSize, Emit, Gen, CodeOf;
  }

  /** &'a' 'a' / 'b': the predicate steps back, and the test still protects what comes after it. */
  lemma AndUnderTest()
    ensures CodeOf(TChoice(TSeq(TAnd(TChar(A)), TChar(A)), TChar(B)))
         == Emit(ITestChar(A, 7)) + (Emit(IAny) + Emit(IBehind(1)) + Emit(IAny)) + Emit(IJmp(3)) + Emit(IChar(B))
  {
    var p := TSeq(TAnd(TChar(A)), TChar(A));
    AndFirst();
    AndCode();
    OnChar(B, FULLSET);
    CharCode(B, FULLSET);
    hide First, HeadFail, Gen, CodeOf, Emit;
    TestedChoiceText(p, TChar(B), A, Emit(IAny) + Emit(IBehind(1)) + Emit(IAny), Emit(IChar(B)));
  }

  lemma AndFirst()
    ensures First([], TSeq(TAnd(TChar(A)), TChar(A)), FULLSET, DEPTH) == FirstSet(false, {A})
  {
    OnChar(A, FULLSET);
    OnChar(A, {A});
    assert Nullable([], TAnd(TChar(A)), DEPTH);
    assert First([], TAnd(TChar(A)), {A}, DEPTH) == FirstSet(false, {A});
  }

  lemma AndCode()
    ensures Gen(N, TSeq(TAnd(TChar(A)), TChar(A)), false, CharTest(A), FULLSET)
         == Emit(IAny) + Emit(IBehind(1)) + Emit(IAny)
  {
    var and := TAnd(TChar(A));
    CharCode(A, FULLSET);
    assert FixedLen([], and) == 0 && FixedLen([], TChar(A)) == 1;
    hide First, FixedLen, Emit;
    assert GenAnd(N, TChar(A), CharTest(A)) == Emit(IAny) + Emit(IBehind(1));
    assert Gen(N, and, false, CharTest(A), SeqFollow(N, and, TChar(A), FULLSET)) == Emit(IAny) + Emit(IBehind(1));
  }

  /** &'' is nothing at all. */
  lemma AndNothing()
    ensures CodeOf(TAnd(TTrue)) == []
  {
    assert FixedLen([], TTrue) == 0;
  }

  // ----- sets

  /** A set is coded by what is in it. */
  lemma Sets()
    ensures CodeOf(TSet({})) == Emit(IFail)
    ensures CodeOf(TSet({A})) == Emit(IChar(A))
    ensures CodeOf(TSet(FULLSET)) == Emit(IAny)
    ensures CodeOf(TSet({A, B})) == Emit(ISet({A, B}))
  {
    SingleType(A);
    PairType();
    FullType();
    hide CharsetType, Emit;
  }

  lemma PairType()
    ensures CharsetType({A, B}) == Other
  {
    assert A in {A, B} && B in {A, B} && C !in {A, B};
    FullHasAll(C);
  }

  lemma FullType()
    ensures CharsetType(FULLSET) == Full
  {
    FullHasAll(A);
    FullHasAll(B);
  }
}
