module BehindLoop {
  /**
   What a call inside a look-behind can do to an accepted grammar: a rule on which matching never ends,
   in its meaning and in its code, and one on which the first-set analysis never returns.
   */

  import opened Peg
  import opened Analysis
  import opened Machine
  import opened CodeGen
  import opened VerifyGrammar
  import opened LookBehind
  import opened Termination
  import opened FirstSets

  const A: Byte := 97
  const B: Byte := 98

  /** x <- B('a' #x) */
  const BODY := TSeq(TChar(A), TAnd(TCall(0)))
  const RULE := TBehind(1, BODY)
  const G: Grammar := [RULE]

  const SUBJECT: Subject := [A]

  // ----- accepted

  lemma Checked()
    ensures WellFormedRules(G) && VerifyRule(G, RULE, [], false).Verified? && !CheckLoops(G, RULE)
  {
    assert FixedLen(G, BODY) == 1;
    assert WellFormed(G, TAnd(TCall(0)), false);
    assert WellFormed(G, BODY, false);
    assert WellFormed(G, RULE, false);
    assert !CheckLoops(G, TAnd(TCall(0)));
    assert !CheckLoops(G, BODY);
  }

  lemma NoLeftCalls(g: Grammar)
    requires forall a: nat, b: nat :: a < |g| ==> !LeftCall(g, g[a], b)
    ensures NoLeftRecursion(g)
  {
    forall path | Cycle(g, path) ensures false {
      FirstEdge(g, path);
    }
  }

  lemma FirstEdge(g: Grammar, path: seq<nat>)
    requires Cycle(g, path)
    ensures Edge(g, path[0], path[1])
  {
    assert Edge(g, path[1 - 1], path[1]);
  }

  lemma IsAccepted()
    ensures Accepted(G) && AcceptedPattern(G, TGrammar)
  {
    Checked();
    NoLeftCalls(G);
    assert NoEmptyLoop(G, TChar(A));
    assert NoEmptyLoop(G, TCall(0));
    assert NoEmptyLoop(G, TAnd(TCall(0)));
    assert NoEmptyLoop(G, BODY);
    assert NoEmptyLoop(G, RULE);
  }

  lemma NotSafe()
    ensures !BehindSafe(G)
  {
    ReachesSelf(G, 0);
    assert HasCall(BODY, 0) && BehindCall(G[0], 0);
  }

  // ----- its meaning

  lemma {:induction false} NoFuelIsEnough(n: nat)
    ensures Eval(G, RULE, SUBJECT, 1, n).OutOfFuel?
  {
    if n >= 4 {
      NoFuelIsEnough(n - 4);
      assert Eval(G, TCall(0), SUBJECT, 1, n - 3) == Eval(G, RULE, SUBJECT, 1, n - 4);
      assert Eval(G, TAnd(TCall(0)), SUBJECT, 1, n - 2).OutOfFuel?;
      assert Eval(G, TChar(A), SUBJECT, 0, n - 2) == Ok(1);
      assert Eval(G, BODY, SUBJECT, 0, n - 1).OutOfFuel?;
    } else if n >= 2 {
      assert Eval(G, TAnd(TCall(0)), SUBJECT, 1, n - 2).OutOfFuel?;
      assert Eval(G, BODY, SUBJECT, 0, n - 1).OutOfFuel?;
    }
  }

  /** The grammar passes the check, and matching it never ends on the subject "a" from position 1. */
  lemma AcceptedNeedNotEnd()
    ensures VerifyRule(G, RULE, [], false).Verified? && !CheckLoops(G, RULE)
    ensures AcceptedPattern(G, TGrammar) && !BehindSafe(G)
    ensures !Ends(G, TGrammar, SUBJECT, 1)
  {
    Checked();
    IsAccepted();
    NotSafe();
    forall n: nat ensures Eval(G, TGrammar, SUBJECT, 1, n).OutOfFuel? {
      if n > 0 { NoFuelIsEnough(n - 1); }
    }
  }

  // ----- its code

  const RAW: Code := [IBehind(1)] + ([IChar(A)] + ([IOpenCall(0), Pad] + [])) + [IRet]

  const CODE: Code := [ICall(4), Pad] + [IJmp(7), Pad] + [IBehind(1), IChar(A), IJmp(-2), Pad, IRet] + [IEnd]

  function M(asWritten: bool): Mode { Mode(G, false, asWritten) }

  lemma Emitted()
    ensures Emit(IBehind(1)) == [IBehind(1)] && Emit(IChar(A)) == [IChar(A)] && Emit(IRet) == [IRet]
    ensures Emit(IOpenCall(0)) == [IOpenCall(0), Pad] && Emit(IEnd) == [IEnd]
    ensures Emit(ICall(4)) == [ICall(4), Pad] && Emit(IJmp(7)) == [IJmp(7), Pad]
  {
  }

  lemma BodyCode(asWritten: bool)
    ensures Gen(M(asWritten), BODY, false, NoTest, FULLSET) == [IChar(A)] + ([IOpenCall(0), Pad] + [])
  {
    hide First, Emit;
    Emitted();
    var m := M(asWritten);
    var tt := SeqTest(m, TChar(A), NoTest);
    assert FixedLen(G, TCall(0)) == 0;
    assert Gen(m, TCall(0), false, tt, FULLSET) == [IOpenCall(0), Pad];
    assert GenAnd(m, TCall(0), tt) == [IOpenCall(0), Pad] + [];
    assert Gen(m, TChar(A), false, NoTest, SeqFollow(m, TChar(A), TAnd(TCall(0)), FULLSET)) == [IChar(A)];
  }

  lemma RawCode(asWritten: bool)
    ensures RulesCode(M(asWritten), 1) == RAW && RuleStart(M(asWritten), 0) == 0
  {
    hide First, Emit;
    Emitted();
    BodyCode(asWritten);
    var m := M(asWritten);
    assert Gen(m, RULE, false, NoTest, FULLSET) == [IBehind(1)] + ([IChar(A)] + ([IOpenCall(0), Pad] + []));
    assert RulesCode(m, 0) == [];
    assert RulesCode(m, 1) == [] + RAW;
  }

  lemma ClosedCode(asWritten: bool)
    ensures CorrectCalls(M(asWritten), RAW) == [IBehind(1), IChar(A), IJmp(-2), Pad, IRet]
  {
    hide Gen, RulesCode;
    RawCode(asWritten);
    assert FinalTarget(RAW, 4, 0) == 4 && RAW[4].IRet?;
    assert LeadsToRet(RAW, 2 + 2);
    assert CorrectCall(M(asWritten), RAW, 2) == IJmp(-2);
  }

  lemma LoopCode(asWritten: bool)
    ensures PatternCode(G, TGrammar, asWritten) == CODE
  {
    hide Emit, RulesCode, CorrectCalls;
    Emitted();
    RawCode(asWritten);
    ClosedCode(asWritten);
    assert GrammarCode(M(asWritten)) == [ICall(4), Pad] + [IJmp(7), Pad] + [IBehind(1), IChar(A), IJmp(-2), Pad, IRet];
  }

  /** The state at one of the three instructions of the loop. */
  predicate InLoop(st: State) {
    || st == Run(4, 1, Call(2, Start(1).stk))
    || st == Run(5, 0, Call(2, Start(1).stk))
    || st == Run(6, 1, Call(2, Start(1).stk))
  }

  lemma LoopStep(st: State)
    requires InLoop(st)
    ensures InLoop(Step(CODE, SUBJECT, st))
  {
  }

  lemma {:induction false} LoopRuns(st: State, n: nat)
    requires InLoop(st)
    ensures InLoop(Steps(CODE, SUBJECT, st, n))
    decreases n
  {
    hide InLoop, Step;
    if n > 0 {
      LoopStep(st);
      LoopRuns(Step(CODE, SUBJECT, st), n - 1);
    }
  }

  /** The generated code of the grammar runs for ever, with a constant stack. */
  lemma CodeNeverHalts(asWritten: bool, n: nat)
    ensures Steps(PatternCode(G, TGrammar, asWritten), SUBJECT, Start(1), n).Run?
  {
    LoopCode(asWritten);
    hide PatternCode;
    if n > 0 {
      assert Step(CODE, SUBJECT, Start(1)) == Run(4, 1, Call(2, Start(1).stk));
      LoopRuns(Step(CODE, SUBJECT, Start(1)), n - 1);
    }
  }

  // ----- the first-set analysis

  /** x <- B(#x 'a') / 'b' */
  const FIRSTALTERNATIVE := TBehind(1, TSeq(TAnd(TCall(0)), TChar(A)))
  const H: Grammar := [TChoice(FIRSTALTERNATIVE, TChar(B))]

  lemma AlsoAccepted()
    ensures Accepted(H) && WellFormed(H, FIRSTALTERNATIVE, false)
  {
    var p := TAnd(TCall(0));
    var body := TSeq(p, TChar(A));
    assert FixedLen(H, body) == 1;
    assert WellFormed(H, p, false);
    assert WellFormed(H, body, false);
    assert WellFormed(H, FIRSTALTERNATIVE, false);
    assert WellFormed(H, H[0], false);
    NoLeftCalls(H);
    assert NoEmptyLoop(H, TCall(0));
    assert NoEmptyLoop(H, p);
    assert NoEmptyLoop(H, TChar(A));
    assert NoEmptyLoop(H, body);
    assert NoEmptyLoop(H, FIRSTALTERNATIVE);
    assert NoEmptyLoop(H, TChar(B));
    assert NoEmptyLoop(H, H[0]);
    assert NoLeftRecursion(H) && WellFormedRules(H) && NoEmptyLoops(H);
  }

  /** On the first alternative of an accepted rule, which the compiler asks for, the analysis never
      returns. */
  lemma GetfirstNeverReturns(fl: Charset, d: nat)
    ensures Accepted(H) && Getfirst(H, FIRSTALTERNATIVE, fl, d).None?
  {
    AlsoAccepted();
    assert Follow(H, TSeq(TAnd(TCall(0)), TChar(A)), 0);
    assert Follow(H, FIRSTALTERNATIVE, 0) && Follow(H, H[0], 0);
    if Getfirst(H, FIRSTALTERNATIVE, fl, d).Some? {
      var fl' := ReturnsThrough(H, FIRSTALTERNATIVE, false, fl, d, 0);
      assert Onward(H, 0, 0);
      NeverReturns(H, [0, 0], fl', d - 1);
    }
  }
}
