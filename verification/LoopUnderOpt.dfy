module LoopUnderOpt {
  /**
   The loop body compiled under `opt`, as the C text has it, can leave the loop early: a pattern and a
   subject on which the code stops before the place where the pattern ends.
   */

  import opened Peg
  import opened Analysis
  import opened Machine
  import opened CodeGen
  import opened VerifyGrammar
  import opened Termination

  const A: Byte := 97
  const B: Byte := 98
  const C: Byte := 99
  const X: Byte := 120
  const Y: Byte := 121

  /** ('b' 'c')^-1 */
  const OPTIONAL := TChoice(TSeq(TChar(B), TChar(C)), TTrue)
  /** 'a' ('b' 'c')^-1 */
  const BODY := TSeq(TChar(A), OPTIONAL)
  /** 'x' 'y' BODY^0 */
  const LINE := TSeq(TChar(X), TSeq(TChar(Y), TRep(BODY)))
  /** LINE^-1 */
  const PATTERN := TChoice(LINE, TTrue)

  const SUBJECT: Subject := [X, Y, A, A]

  const M := Mode([], true, true)

  lemma SingleType(c: Byte)
    ensures CharsetType({c}) == Single(c)
  {
    assert c in {c};
  }

  lemma NotFull(c: Byte)
    ensures !({c} !! FULLSET)
  {
    FullHasAll(c);
    assert c in {c} * FULLSET;
  }

  lemma EmptyFirst()
    ensures First([], TTrue, FULLSET, DEPTH) == FirstSet(true, FULLSET)
  {
  }

  lemma OptionalCode(tt: Test)
    ensures Gen(M, OPTIONAL, true, tt, FULLSET) == [IPartialCommit(2), Pad, IChar(B), IChar(C)]
  {
    NotFull(B);
    var p := TSeq(TChar(B), TChar(C));
    assert First([], p, FULLSET, DEPTH) == FirstSet(false, {B});
    assert First([], TTrue, FULLSET, DEPTH) == FirstSet(true, FULLSET);
    assert !TestedChoice(M, p, TTrue, FULLSET);
    assert Gen(M, p, true, NoTest, FULLSET) == [IChar(B), IChar(C)];
    assert Emit(IPartialCommit(2)) == [IPartialCommit(2), Pad];
  }

  lemma BodyAnalysis()
    ensures First([], BODY, FULLSET, DEPTH) == FirstSet(false, {A})
    ensures HeadFail([], BODY, DEPTH)
  {
    assert CheckAux([], TTrue, PEnofail, DEPTH, false);
    assert CheckAux([], OPTIONAL, PEnofail, DEPTH, false);
    assert Nofail([], OPTIONAL, DEPTH);
    assert HeadFail([], TChar(A), DEPTH);
    assert !CheckAux([], TChar(A), PEnullable, DEPTH, true);
    assert First([], TChar(A), FULLSET, DEPTH) == FirstSet(false, {A});
  }

  lemma BodyCode()
    ensures Gen(M, BODY, true, CharTest(A), FULLSET) == [IAny, IPartialCommit(2), Pad, IChar(B), IChar(C)]
  {
    hide First, HeadFail, FixedLen, TestedChoice, TestedLoop;
    OptionalCode(SeqTest(M, TChar(A), CharTest(A)));
    assert Gen(M, TChar(A), false, CharTest(A), SeqFollow(M, TChar(A), OPTIONAL, FULLSET)) == [IAny];
  }

  lemma TestCode()
    ensures TestOf({A}, false) == CharTest(A) && TestSize({A}, false) == 2
    ensures CodeTest({A}, false, 9) == [ITestChar(A, 9), Pad]
  {
    SingleType(A);
    assert Emit(ITestChar(A, 9)) == [ITestChar(A, 9), Pad];
  }

  lemma EmitJump()
    ensures Emit(IJmp(-7)) == [IJmp(-7), Pad]
  {
  }

  const LOOP: Code := [ITestChar(A, 9), Pad, IAny, IPartialCommit(2), Pad, IChar(B), IChar(C), IJmp(-7), Pad]

  lemma LoopCode(tt: Test)
    ensures Gen(M, TRep(BODY), true, tt, FULLSET) == LOOP
  {
    hide First, HeadFail, FixedLen, CodeTest, TestOf, TestSize, Emit, CharsetType;
    BodyAnalysis();
    TestCode();
    BodyCode();
    assert TestedLoop(M, BODY, FULLSET);
    EmitJump();
  }

  lemma LineAnalysis()
    ensures First([], LINE, FULLSET, DEPTH) == FirstSet(false, {X})
    ensures !HeadFail([], LINE, DEPTH)
    ensures FixedLen([], TChar(X)) == 1 && FixedLen([], TChar(Y)) == 1
  {
    assert !CheckAux([], TChar(Y), PEnofail, DEPTH, false);
    assert !CheckAux([], TSeq(TChar(Y), TRep(BODY)), PEnofail, DEPTH, false);
    assert !CheckAux([], TChar(X), PEnullable, DEPTH, true);
    assert First([], TChar(X), FULLSET, DEPTH) == FirstSet(false, {X});
  }

  const LINECODE: Code := [IAny, IChar(Y)] + LOOP

  lemma LineCode()
    ensures Gen(M, LINE, true, CharTest(X), FULLSET) == LINECODE
  {
    hide First, HeadFail, FixedLen, GenRep;
    LineAnalysis();
    var rest := TSeq(TChar(Y), TRep(BODY));
    LoopCode(SeqTest(M, TChar(Y), NoTest));
    assert Gen(M, TChar(Y), false, NoTest, SeqFollow(M, TChar(Y), TRep(BODY), FULLSET)) == [IChar(Y)];
    assert Gen(M, rest, true, NoTest, FULLSET) == [IChar(Y)] + LOOP;
    assert Gen(M, TChar(X), false, CharTest(X), SeqFollow(M, TChar(X), rest, FULLSET)) == [IAny];
    assert [IAny] + ([IChar(Y)] + LOOP) == LINECODE;
  }

  lemma Emitted()
    ensures CodeTest({X}, false, 17) == [ITestChar(X, 17), Pad] && TestSize({X}, false) == 2
    ensures TestOf({X}, false) == CharTest(X)
    ensures Emit(IChoice(15)) == [IChoice(15), Pad]
    ensures Emit(ICommit(2)) == [ICommit(2), Pad]
    ensures Emit(IEnd) == [IEnd]
  {
    SingleType(X);
    assert Emit(ITestChar(X, 17)) == [ITestChar(X, 17), Pad];
  }

  const CODE: Code :=
    [ITestChar(X, 17), Pad, IChoice(15), Pad] + LINECODE + [ICommit(2), Pad, IEnd]

  lemma OptionalParts(p: Tree)
    ensures Gen(M, TChoice(p, TTrue), false, NoTest, FULLSET) == GenChoice(M, p, TTrue, false, FULLSET)
    ensures Gen(M, TTrue, false, NoTest, FULLSET) == []
  {
    hide First, HeadFail, GenChoice;
  }

  /** The code of an optional pattern that begins with X and cannot fail by its first character alone. */
  lemma OptionalPattern(p: Tree, c: Code)
    requires First([], p, FULLSET, DEPTH) == FirstSet(false, {X}) && !HeadFail([], p, DEPTH)
    requires Gen(M, p, true, CharTest(X), FULLSET) == c && |c| == 11
    ensures PatternCode([], TChoice(p, TTrue), true)
         == [ITestChar(X, 17), Pad, IChoice(15), Pad] + c + [ICommit(2), Pad, IEnd]
  {
    hide First, HeadFail, CodeTest, TestOf, TestSize, Emit, Gen;
    Emitted();
    NotFull(X);
    EmptyFirst();
    OptionalParts(p);
    assert !TestedChoice(M, p, TTrue, FULLSET);
    assert GenChoice(M, p, TTrue, false, FULLSET)
        == [ITestChar(X, 17), Pad] + [IChoice(15), Pad] + c + [ICommit(2), Pad] + [];
  }

  lemma LiteralCode()
    ensures PatternCode([], PATTERN, true) == CODE
  {
    hide First, HeadFail, Gen, PatternCode;
    LineAnalysis();
    LineCode();
    OptionalPattern(LINE, LINECODE);
  }

  function Then(st: State): State { Step(CODE, SUBJECT, st) }

  lemma CodeAt()
    ensures CODE[0] == ITestChar(X, 17) && CODE[2] == IChoice(15) && CODE[4] == IAny && CODE[5] == IChar(Y)
    ensures CODE[6] == ITestChar(A, 9) && CODE[8] == IAny && CODE[9] == IPartialCommit(2)
    ensures CODE[11] == IChar(B) && CODE[15] == ICommit(2) && CODE[17] == IEnd
  {
  }

  /** The failure of 'b' at position 3 resumes at the end of the whole pattern. */
  lemma LiteralRun() returns (n: nat)
    ensures Steps(CODE, SUBJECT, Start(0), n) == Halted(Some(3))
  {
    CodeAt();
    var st := Then(Then(Then(Then(Start(0)))));
    assert st == Run(6, 2, Choice(17, 0, Choice(GIVEUP, 0, Base)));
    var at := Then(Then(Then(st)));
    assert at == Run(11, 3, Choice(17, 3, Choice(GIVEUP, 0, Base)));
    var end := Then(Then(at));
    assert end == Halted(Some(3));
    Four(Start(0));
    Four(st);
    n := 9;
    StepsAdd(CODE, SUBJECT, Start(0), 4, 5);
    StepsAdd(CODE, SUBJECT, st, 4, 1);
    assert Steps(CODE, SUBJECT, Then(at), 1) == Steps(CODE, SUBJECT, end, 0);
  }

  lemma Four(st: State)
    ensures Steps(CODE, SUBJECT, st, 4) == Then(Then(Then(Then(st))))
  {
    assert Steps(CODE, SUBJECT, Then(Then(Then(Then(st)))), 0) == Then(Then(Then(Then(st))));
    assert Steps(CODE, SUBJECT, Then(Then(Then(st))), 1) == Then(Then(Then(Then(st))));
    assert Steps(CODE, SUBJECT, Then(Then(st)), 2) == Then(Then(Then(Then(st))));
    assert Steps(CODE, SUBJECT, Then(st), 3) == Then(Then(Then(Then(st))));
  }

  lemma OptionalEmpty(i: nat, n: nat)
    requires 3 <= i <= 4 && n > 2
    ensures Eval([], OPTIONAL, SUBJECT, i, n) == Ok(i)
  {
    assert Eval([], TChar(B), SUBJECT, i, n - 2) == Fail;
    assert Eval([], TSeq(TChar(B), TChar(C)), SUBJECT, i, n - 1) == Fail;
    assert Eval([], TTrue, SUBJECT, i, n - 1) == Ok(i);
  }

  lemma BodyMeaning(i: nat, n: nat)
    requires 2 <= i <= 4 && n > 3
    ensures Eval([], BODY, SUBJECT, i, n) == if i < 4 then Ok(i + 1) else Fail
  {
    assert Eval([], TChar(A), SUBJECT, i, n - 1) == if i < 4 then Ok(i + 1) else Fail;
    if i < 4 { OptionalEmpty(i + 1, n - 1); }
  }

  lemma LoopMeaning()
    ensures Eval([], TRep(BODY), SUBJECT, 2, 10) == Ok(4)
  {
    BodyMeaning(2, 9);
    BodyMeaning(3, 8);
    BodyMeaning(4, 7);
    assert Eval([], TRep(BODY), SUBJECT, 4, 8) == Ok(4);
    assert Eval([], TRep(BODY), SUBJECT, 3, 9) == Ok(4);
  }

  lemma PatternMeaning()
    ensures Means([], PATTERN, SUBJECT, 0, Ok(4))
  {
    LoopMeaning();
    assert Eval([], TChar(Y), SUBJECT, 1, 11) == Ok(2);
    assert Eval([], TRep(BODY), SUBJECT, 2, 11) == Ok(4) by { FuelIrrelevant([], TRep(BODY), SUBJECT, 2, 10, 11); }
    assert Eval([], TSeq(TChar(Y), TRep(BODY)), SUBJECT, 1, 12) == Ok(4);
    assert Eval([], TChar(X), SUBJECT, 0, 12) == Ok(1);
    assert Eval([], LINE, SUBJECT, 0, 13) == Ok(4);
    assert Eval([], PATTERN, SUBJECT, 0, 14) == Ok(4);
  }

  lemma PatternAccepted()
    ensures AcceptedPattern([], PATTERN)
  {
    forall d: nat ensures !CheckAux([], BODY, PEnullable, d, false) {
      assert !CheckAux([], TChar(A), PEnullable, d, false);
    }
    assert NoEmptyLoop([], OPTIONAL);
    assert NoEmptyLoop([], BODY);
    assert NoEmptyLoop([], TRep(BODY));
    assert NoEmptyLoop([], TSeq(TChar(Y), TRep(BODY)));
    assert NoEmptyLoop([], LINE);
  }

  /** The literal code of an accepted pattern can stop at another place than the pattern means. */
  lemma LiteralLoopIsWrong() returns (n: nat)
    ensures AcceptedPattern([], PATTERN) && Means([], PATTERN, SUBJECT, 0, Ok(4))
    ensures Steps(PatternCode([], PATTERN, true), SUBJECT, Start(0), n) == Halted(Some(3))
  {
    PatternMeaning();
    LiteralCode();
    n := LiteralRun();
    PatternAccepted();
  }

  // ----- sharing that does no harm

  /** 'x' [] BODY^0, with the empty set */
  const DEADLINE := TSeq(TChar(X), TSeq(TSet({}), TRep(BODY)))
  /** DEADLINE^-1 */
  const HARMLESS := TChoice(DEADLINE, TTrue)

  const DEADCODE: Code := [IAny, IFail] + LOOP

  const HARMLESSCODE: Code :=
    [ITestChar(X, 17), Pad, IChoice(15), Pad] + DEADCODE + [ICommit(2), Pad, IEnd]

  lemma DeadAnalysis()
    ensures First([], DEADLINE, FULLSET, DEPTH) == FirstSet(false, {X})
    ensures !HeadFail([], DEADLINE, DEPTH)
    ensures FixedLen([], TChar(X)) == 1 && FixedLen([], TSet({})) == 1
  {
    assert !CheckAux([], TSet({}), PEnofail, DEPTH, false);
    assert !CheckAux([], TSeq(TSet({}), TRep(BODY)), PEnofail, DEPTH, false);
    assert !CheckAux([], TChar(X), PEnullable, DEPTH, true);
    assert First([], TChar(X), FULLSET, DEPTH) == FirstSet(false, {X});
  }

  lemma DeadCode()
    ensures Gen(M, DEADLINE, true, CharTest(X), FULLSET) == DEADCODE
  {
    hide First, HeadFail, FixedLen, GenRep, CharsetType;
    DeadAnalysis();
    var rest := TSeq(TSet({}), TRep(BODY));
    LoopCode(SeqTest(M, TSet({}), NoTest));
    assert CharsetType({}) == EmptySet;
    assert Gen(M, TSet({}), false, NoTest, SeqFollow(M, TSet({}), TRep(BODY), FULLSET)) == [IFail];
    assert Gen(M, rest, true, NoTest, FULLSET) == [IFail] + LOOP;
    assert Gen(M, TChar(X), false, CharTest(X), SeqFollow(M, TChar(X), rest, FULLSET)) == [IAny];
    assert [IAny] + ([IFail] + LOOP) == DEADCODE;
  }

  lemma HarmlessCode()
    ensures PatternCode([], HARMLESS, true) == HARMLESSCODE
  {
    hide First, HeadFail, Gen, PatternCode;
    DeadAnalysis();
    DeadCode();
    OptionalPattern(DEADLINE, DEADCODE);
  }

  lemma HarmlessIsNotSafe()
    ensures !LoopsSafe(M, HARMLESS, false, FULLSET)
  {
    hide First, HeadFail, FixedLen;
    DeadAnalysis();
    BodyAnalysis();
    OptionalAnalysis();
    NotFull(X);
    EmptyFirst();
    assert TestedLoop(M, BODY, FULLSET);
    assert Shares(M, OPTIONAL, FULLSET);
    assert Shares(M, BODY, FULLSET);
    assert !LoopsSafe(M, TRep(BODY), true, FULLSET);
    assert !LoopsSafe(M, TSeq(TSet({}), TRep(BODY)), true, FULLSET);
    assert !LoopsSafe(M, DEADLINE, true, FULLSET);
    assert !TestedChoice(M, DEADLINE, TTrue, FULLSET);
  }

  lemma HarmlessAccepted()
    ensures AcceptedPattern([], HARMLESS)
  {
    PatternAccepted();
    assert NoEmptyLoop([], LINE);
    assert NoEmptyLoop([], TSeq(TChar(Y), TRep(BODY)));
    assert NoEmptyLoop([], TSeq(TSet({}), TRep(BODY)));
    assert NoEmptyLoop([], DEADLINE);
  }

  lemma OptionalAnalysis()
    ensures !TestedChoice(M, TSeq(TChar(B), TChar(C)), TTrue, FULLSET)
  {
    NotFull(B);
    assert First([], TChar(B), FULLSET, DEPTH) == FirstSet(false, {B});
    assert First([], TSeq(TChar(B), TChar(C)), FULLSET, DEPTH) == FirstSet(false, {B});
    assert First([], TTrue, FULLSET, DEPTH) == FirstSet(true, FULLSET);
  }

  lemma HarmlessRun(s: Subject, i: nat) returns (n: nat)
    ensures Steps(HARMLESSCODE, s, Start(i), n) == Halted(Some(i))
  {
    var code := HARMLESSCODE;
    assert code[0] == ITestChar(X, 17) && code[2] == IChoice(15) && code[4] == IAny && code[5] == IFail;
    assert code[17] == IEnd;
    hide HARMLESSCODE;
    var end := Run(17, i, Choice(GIVEUP, i, Base));
    assert Steps(code, s, end, 1) == Steps(code, s, Halted(Some(i)), 0);
    var st1 := Step(code, s, Start(i));
    if i < |s| && s[i] == X {
      var st2 := Step(code, s, st1);
      var st3 := Step(code, s, st2);
      assert Step(code, s, st3) == end;
      assert Steps(code, s, st3, 2) == Steps(code, s, end, 1);
      assert Steps(code, s, st2, 3) == Steps(code, s, st3, 2);
      assert Steps(code, s, st1, 4) == Steps(code, s, st2, 3);
      n := 5;
    } else {
      assert st1 == end;
      n := 2;
    }
  }

  lemma HarmlessMeaning(s: Subject, i: nat, r: Outcome)
    requires i <= |s| && Means([], HARMLESS, s, i, r)
    ensures r == Ok(i)
  {
    var n: nat :| Eval([], HARMLESS, s, i, n) == r;
    DeadlineFails(s, i, n - 1);
    assert Eval([], TTrue, s, i, n - 1) == if n > 1 then Ok(i) else OutOfFuel;
  }

  lemma DeadlineFails(s: Subject, i: nat, n: nat)
    requires i <= |s|
    ensures !Eval([], DEADLINE, s, i, n).Ok?
  {
    forall j: nat, f: nat | j <= |s| ensures !Eval([], TSeq(TSet({}), TRep(BODY)), s, j, f).Ok? {
      if f > 0 { assert !Eval([], TSet({}), s, j, f - 1).Ok?; }
    }
  }

  /** The code halts with the outcome `r`. */
  ghost predicate HaltsWith(code: Code, s: Subject, i: nat, r: Outcome) {
    exists n: nat :: Steps(code, s, Start(i), n) == Halted(if r.Ok? then Some(r.pos) else None)
  }

  /** A loop that reuses the choice of an enclosing pattern need not do harm: a pattern outside the
      condition whose literal code does what the pattern means, on every subject. */
  lemma SharingCanBeHarmless()
    ensures AcceptedPattern([], HARMLESS) && !LoopsSafe(M, HARMLESS, false, FULLSET)
    ensures forall s: Subject, i: nat, r: Outcome | i <= |s| && Means([], HARMLESS, s, i, r) ::
              HaltsWith(PatternCode([], HARMLESS, true), s, i, r)
  {
    hide LoopsSafe, PatternCode;
    HarmlessIsNotSafe();
    HarmlessAccepted();
    HarmlessCode();
    forall s: Subject, i: nat, r: Outcome | i <= |s| && Means([], HARMLESS, s, i, r)
      ensures HaltsWith(PatternCode([], HARMLESS, true), s, i, r)
    {
      HarmlessMeaning(s, i, r);
      var n := HarmlessRun(s, i);
    }
  }
}
