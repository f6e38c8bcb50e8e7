module CodeGenCorrect {
  /**
   Compiled code does what the tree means.

   `Correct` is the statement for one tree, relative to what may follow it and to `opt`; the lemmas
   before it handle one construct each and call it back with less fuel.
   */

  import opened Peg
  import opened Analysis
  import opened Machine
  import opened CodeGen

  /** A program under consideration; inside the rules, `base` is the address of the first rule. */
  datatype Env = Env(m: Mode, s: Subject, code: Code, base: int)

  // ----- placed code

  /** Slot `at` of the program holds `ins`, or the call it stands for. */
  ghost predicate Placed(e: Env, at: int, ins: Instr) {
    0 <= at < |e.code| &&
    if ins.IOpenCall? && !e.m.main && ins.rule < |e.m.g| then
      var off := e.base + RuleStart(e.m, ins.rule) - at;
      e.code[at] == ICall(off) || (e.code[at] == IJmp(off) && LeadsToRet(e.code, at + 2))
    else e.code[at] == ins
  }

  ghost predicate Embedded(e: Env, pc: int, c: Code) {
    forall k :: 0 <= k < |c| ==> Placed(e, pc + k, c[k])
  }

  /** Every rule is in place, followed by its return. */
  ghost predicate RulesPlaced(e: Env) {
    !e.m.main ==>
      forall k {:trigger e.m.g[k]} :: 0 <= k < |e.m.g| ==>
        Embedded(e, e.base + RuleStart(e.m, k), RuleCode(e.m, k))
  }

  ghost predicate Ready(e: Env) {
    WellFormedRules(e.m.g) && RulesSafe(e.m.(main := false)) && RulesPlaced(e)
  }

  lemma Split(e: Env, pc: int, a: Code, b: Code)
    requires Embedded(e, pc, a + b)
    ensures Embedded(e, pc, a) && Embedded(e, pc + |a|, b)
  {
    forall k | 0 <= k < |a| ensures Placed(e, pc + k, a[k]) {
      assert (a + b)[k] == a[k];
    }
    forall k | 0 <= k < |b| ensures Placed(e, pc + |a| + k, b[k]) {
      assert (a + b)[|a| + k] == b[k];
    }
  }

  lemma Head(e: Env, pc: int, ins: Instr)
    requires Embedded(e, pc, Emit(ins)) && !ins.IOpenCall?
    ensures 0 <= pc < |e.code| && e.code[pc] == ins
  {
    assert Placed(e, pc + 0, Emit(ins)[0]);
  }

  // ----- outcomes

  ghost predicate Joins(e: Env, a: State, b: State) { Meet(e.code, e.s, a, b) }

  lemma Chain(e: Env, a: State, b: State, c: State)
    requires Joins(e, a, b) && Joins(e, b, c)
    ensures Joins(e, a, c)
  {
    MeetTrans(e.code, e.s, a, b, c);
  }

  lemma OneStep(e: Env, a: State)
    ensures Joins(e, a, Step(e.code, e.s, a))
  {
    MeetStep(e.code, e.s, a);
  }

  lemma Jumps(e: Env, pc: int, i: nat, stk: Stack)
    requires 0 <= pc < |e.code| && e.code[pc].IJmp? && i <= |e.s|
    ensures Joins(e, Run(pc, i, stk), Run(pc + e.code[pc].off, i, stk))
  {
    OneStep(e, Run(pc, i, stk));
  }

  lemma Pushes(e: Env, pc: int, i: nat, stk: Stack)
    requires 0 <= pc < |e.code| && e.code[pc].IChoice? && i <= |e.s|
    ensures Joins(e, Run(pc, i, stk), Run(pc + 2, i, Choice(pc + e.code[pc].off, i, stk)))
  {
    OneStep(e, Run(pc, i, stk));
  }

  lemma Fails(e: Env, pc: int, i: nat, stk: Stack)
    requires 0 <= pc < |e.code| && e.code[pc].IFail? && i <= |e.s|
    ensures Joins(e, Run(pc, i, stk), Backtrack(stk))
  {
    OneStep(e, Run(pc, i, stk));
  }

  lemma FailsTwice(e: Env, pc: int, i: nat, stk: Stack)
    requires 0 <= pc < |e.code| && e.code[pc].IFailTwice? && i <= |e.s| && stk.Choice?
    ensures Joins(e, Run(pc, i, stk), Backtrack(stk.below))
  {
    OneStep(e, Run(pc, i, stk));
  }

  lemma Recommits(e: Env, pc: int, i: nat, stk: Stack)
    requires 0 <= pc < |e.code| && e.code[pc].IPartialCommit? && i <= |e.s| && stk.Choice?
    ensures Joins(e, Run(pc, i, stk), Run(pc + e.code[pc].off, i, Choice(stk.alt, i, stk.below)))
  {
    OneStep(e, Run(pc, i, stk));
  }

  lemma LooksBack(e: Env, pc: int, i: nat, stk: Stack)
    requires 0 <= pc < |e.code| && e.code[pc].IBehind? && i <= |e.s|
    ensures Joins(e, Run(pc, i, stk), if e.code[pc].n > i then Backtrack(stk) else Run(pc + 1, i - e.code[pc].n, stk))
  {
    OneStep(e, Run(pc, i, stk));
  }

  lemma Same(e: Env, a: State)
    ensures Joins(e, a, a)
  {
    MeetSelf(e.code, e.s, a);
  }

  /** The run from `from` realizes outcome `r`: it fails; or it reaches `end`; or, when a character
      outside `fl` follows, it may fail instead; or, under `opt`, it may have moved the position of
      the newest choice or have resumed at that choice. */
  ghost predicate Realizes(e: Env, from: State, end: int, stk: Stack, opt: bool, fl: Charset, r: Outcome) {
    match r
    case OutOfFuel => true
    case Fail => Joins(e, from, Backtrack(stk))
    case Ok(j) =>
      || Joins(e, from, Run(end, j, stk))
      || (!opt && j < |e.s| && e.s[j] !in fl && Joins(e, from, Backtrack(stk)))
      || (opt && stk.Choice? && Joins(e, from, Run(stk.alt, j, stk.below)))
      || (opt && stk.Choice? && exists k: nat :: Joins(e, from, Run(end, j, Choice(stk.alt, k, stk.below))))
  }

  lemma RealizesFrom(e: Env, a: State, b: State, end: int, stk: Stack, opt: bool, fl: Charset, r: Outcome)
    requires Joins(e, a, b) && Realizes(e, b, end, stk, opt, fl, r)
    ensures Realizes(e, a, end, stk, opt, fl, r)
  {
    hide Joins, First, HeadFail, FixedLen, Nofail;
    match r
    case OutOfFuel =>
    case Fail => Chain(e, a, b, Backtrack(stk));
    case Ok(j) =>
      if Joins(e, b, Run(end, j, stk)) {
        Chain(e, a, b, Run(end, j, stk));
      } else if !opt {
        Chain(e, a, b, Backtrack(stk));
      } else if Joins(e, b, Run(stk.alt, j, stk.below)) {
        Chain(e, a, b, Run(stk.alt, j, stk.below));
      } else {
        var k: nat :| Joins(e, b, Run(end, j, Choice(stk.alt, k, stk.below)));
        Chain(e, a, b, Run(end, j, Choice(stk.alt, k, stk.below)));
      }
  }

  /** With everything allowed to follow and no `opt` the outcome is exact. */
  lemma Exact(e: Env, from: State, end: int, stk: Stack, j: nat)
    requires Realizes(e, from, end, stk, false, FULLSET, Ok(j))
    ensures Joins(e, from, Run(end, j, stk))
  {
    hide Joins;
    hide Joins, First, HeadFail, FixedLen, Nofail;
    if j < |e.s| { FullHasAll(e.s[j]); }
  }

  lemma AtEnd(e: Env, from: State, end: int, stk: Stack, opt: bool, fl: Charset, j: nat)
    requires Joins(e, from, Run(end, j, stk))
    ensures Realizes(e, from, end, stk, opt, fl, Ok(j))
  {
  }

  lemma Backtracked(e: Env, from: State, end: int, stk: Stack, opt: bool, fl: Charset)
    ensures Realizes(e, from, end, stk, opt, fl, Fail) <==> Joins(e, from, Backtrack(stk))
  {
  }

  lemma Undefined(e: Env, from: State, end: int, stk: Stack, opt: bool, fl: Charset)
    ensures Realizes(e, from, end, stk, opt, fl, OutOfFuel)
  {
  }

  ghost predicate Holds(tt: Test, s: Subject, i: nat) {
    match tt
    case CharTest(c) => i < |s| && s[i] == c
    case SetTest(cs) => i < |s| && s[i] in cs
    case _ => true
  }

  /** What is asked of the place where some code is entered. */
  ghost predicate Entry(e: Env, opt: bool, tt: Test, fl: Charset, i: nat, stk: Stack) {
    i <= |e.s| && Holds(tt, e.s, i) && (opt ==> fl == FULLSET && stk.Choice?)
  }

  // ----- one unfolding of the meaning, for each construct

  lemma EvalChoice(g: Grammar, p1: Tree, p2: Tree, s: Subject, i: nat, n: nat)
    requires n > 0 && i <= |s|
    ensures var r1 := Eval(g, p1, s, i, n - 1);
            Eval(g, TChoice(p1, p2), s, i, n) == (if r1.Fail? then Eval(g, p2, s, i, n - 1) else r1)
  {
  }

  lemma EvalTrue(g: Grammar, s: Subject, i: nat, n: nat)
    requires i <= |s|
    ensures Eval(g, TTrue, s, i, n) == if n == 0 then OutOfFuel else Ok(i)
  {
  }

  lemma EvalSeq(g: Grammar, p1: Tree, p2: Tree, s: Subject, i: nat, n: nat)
    requires n > 0 && i <= |s|
    ensures var r1 := Eval(g, p1, s, i, n - 1);
            Eval(g, TSeq(p1, p2), s, i, n) == (if r1.Ok? then Eval(g, p2, s, r1.pos, n - 1) else r1)
  {
  }

  lemma EvalRep(g: Grammar, p: Tree, s: Subject, i: nat, n: nat)
    requires n > 0 && i <= |s|
    ensures var r1 := Eval(g, p, s, i, n - 1);
            Eval(g, TRep(p), s, i, n) ==
            (if r1.Ok? then Eval(g, TRep(p), s, r1.pos, n - 1) else if r1.Fail? then Ok(i) else r1)
  {
  }

  lemma EvalNot(g: Grammar, p: Tree, s: Subject, i: nat, n: nat)
    requires n > 0 && i <= |s|
    ensures var r1 := Eval(g, p, s, i, n - 1);
            Eval(g, TNot(p), s, i, n) == (if r1.Ok? then Fail else if r1.Fail? then Ok(i) else r1)
  {
  }

  lemma EvalAnd(g: Grammar, p: Tree, s: Subject, i: nat, n: nat)
    requires n > 0 && i <= |s|
    ensures var r1 := Eval(g, p, s, i, n - 1);
            Eval(g, TAnd(p), s, i, n) == (if r1.Ok? then Ok(i) else r1)
  {
  }

  // ----- tests

  lemma TestStep(e: Env, cs: Charset, off: int, pc: int, i: nat, stk: Stack)
    requires i <= |e.s| && Embedded(e, pc, CodeTest(cs, false, off))
    ensures Joins(e, Run(pc, i, stk),
                  if i < |e.s| && e.s[i] in cs then Run(pc + TestSize(cs, false), i, stk) else Run(pc + off, i, stk))
    ensures i < |e.s| && e.s[i] in cs ==> Holds(TestOf(cs, false), e.s, i)
  {
    Head(e, pc, TestInstr(cs, off));
    OneStep(e, Run(pc, i, stk));
    if i < |e.s| { FullHasAll(e.s[i]); }
  }

  /** A test that is skipped when the empty string must be accepted. */
  lemma MaybeTest(e: Env, cs: Charset, empty: bool, off: int, pc: int, i: nat, stk: Stack) returns (pass: bool)
    requires i <= |e.s| && Embedded(e, pc, CodeTest(cs, empty, off))
    ensures pass ==>
              Joins(e, Run(pc, i, stk), Run(pc + TestSize(cs, empty), i, stk)) && Holds(TestOf(cs, empty), e.s, i)
    ensures !pass ==> Joins(e, Run(pc, i, stk), Run(pc + off, i, stk))
    ensures !pass ==> !empty && (i < |e.s| ==> e.s[i] !in cs)
    ensures pass ==> empty || (i < |e.s| && e.s[i] in cs)
  {
    hide Joins, First, HeadFail, FixedLen, Nofail;
    if empty {
      Same(e, Run(pc, i, stk));
      return true;
    }
    TestStep(e, cs, off, pc, i, stk);
    pass := i < |e.s| && e.s[i] in cs;
  }

  /** When the test of a pattern fails, the pattern fails. */
  lemma TestRefutes(g: Grammar, p: Tree, s: Subject, i: nat, n: nat)
    requires i <= |s| && !First(g, p, FULLSET, DEPTH).e
    requires i < |s| ==> s[i] !in First(g, p, FULLSET, DEPTH).cs
    ensures !Eval(g, p, s, i, n).Ok?
  {
    hide Joins, First, HeadFail, FixedLen, Nofail;
    if Eval(g, p, s, i, n).Ok? {
      FirstSound(g, p, FULLSET, DEPTH, s, i, n);
    }
  }

  // ----- one construct at a time

  lemma CharCorrect(e: Env, t: Tree, opt: bool, tt: Test, fl: Charset, i: nat, n: nat, pc: int, stk: Stack)
    requires n > 0 && ToCharset(t).Some? && Entry(e, opt, tt, fl, i, stk)
    requires Embedded(e, pc, Gen(e.m, t, opt, tt, fl))
    ensures Realizes(e, Run(pc, i, stk), pc + |Gen(e.m, t, opt, tt, fl)|, stk, opt, fl, Eval(e.m.g, t, e.s, i, n))
  {
    hide Joins, First, HeadFail, FixedLen, Nofail;
    var c := Gen(e.m, t, opt, tt, fl);
    if i < |e.s| { FullHasAll(e.s[i]); }
    OneStep(e, Run(pc, i, stk));
    Head(e, pc, c[0]);
  }

  lemma ChoiceCorrect(e: Env, p1: Tree, p2: Tree, opt: bool, tt: Test, fl: Charset, i: nat, n: nat, pc: int, stk: Stack)
    requires n > 0 && Ready(e) && Entry(e, opt, tt, fl, i, stk)
    requires WellFormed(e.m.g, TChoice(p1, p2), e.m.main) && LoopsSafe(e.m, TChoice(p1, p2), opt, fl)
    requires Embedded(e, pc, GenChoice(e.m, p1, p2, opt, fl))
    ensures Realizes(e, Run(pc, i, stk), pc + |GenChoice(e.m, p1, p2, opt, fl)|, stk, opt, fl,
            Eval(e.m.g, TChoice(p1, p2), e.s, i, n))
    decreases n, 2
  {
    hide Joins, First, HeadFail, FixedLen, Nofail, Realizes, Embedded, Ready, GenChoice;
    if TestedChoice(e.m, p1, p2, fl) {
      TestedChoiceCorrect(e, p1, p2, opt, tt, fl, i, n, pc, stk);
    } else if opt && p2.TTrue? {
      SharedChoiceCorrect(e, p1, fl, i, n, pc, stk);
    } else {
      PlainChoiceCorrect(e, p1, p2, opt, tt, fl, i, n, pc, stk);
    }
  }

  lemma TrueHasNoCode(m: Mode, opt: bool, tt: Test, fl: Charset)
    ensures Gen(m, TTrue, opt, tt, fl) == []
  {
  }

  lemma TestedChoiceLayout(e: Env, p1: Tree, p2: Tree, opt: bool, fl: Charset, pc: int)
    requires TestedChoice(e.m, p1, p2, fl)
    requires Embedded(e, pc, GenChoice(e.m, p1, p2, opt, fl))
    ensures var cs := First(e.m.g, p1, FULLSET, DEPTH).cs;
            var sz := TestSize(cs, false);
            var c1 := Gen(e.m, p1, false, TestOf(cs, false), fl);
            var c2 := Gen(e.m, p2, opt, NoTest, fl);
            var j := if p2.TTrue? then 0 else 2;
            && |GenChoice(e.m, p1, p2, opt, fl)| == sz + |c1| + j + |c2|
            && Embedded(e, pc, CodeTest(cs, false, sz + |c1| + j))
            && Embedded(e, pc + sz, c1)
            && (!p2.TTrue? ==> 0 <= pc + sz + |c1| < |e.code| && e.code[pc + sz + |c1|] == IJmp(2 + |c2|))
            && Embedded(e, pc + sz + |c1| + j, c2)
            && (p2.TTrue? ==> c2 == [])
  {
    hide First, HeadFail, Placed, Embedded, Emit, CodeTest, TestSize, TestOf, Gen;
    var cs := First(e.m.g, p1, FULLSET, DEPTH).cs;
    var sz := TestSize(cs, false);
    var c1 := Gen(e.m, p1, false, TestOf(cs, false), fl);
    var c2 := Gen(e.m, p2, opt, NoTest, fl);
    var jmp := JmpOver(p2, |c2|);
    var ct := CodeTest(cs, false, sz + |c1| + |jmp|);
    if p2.TTrue? { TrueHasNoCode(e.m, opt, NoTest, fl); }
    Split(e, pc, ct + c1 + jmp, c2);
    Split(e, pc, ct + c1, jmp);
    Split(e, pc, ct, c1);
    if !p2.TTrue? { Head(e, pc + sz + |c1|, IJmp(2 + |c2|)); }
  }

  /** The first alternative matched: the code of the second one is jumped over, if there is any. */
  lemma SkipSecond(e: Env, a: State, b: State, at: int, end: int, stk: Stack, opt: bool, fl: Charset, j: nat)
    requires Joins(e, a, b) && Realizes(e, b, at, stk, false, fl, Ok(j)) && j <= |e.s|
    requires at == end || (0 <= at < |e.code| && e.code[at] == IJmp(end - at))
    requires opt ==> fl == FULLSET
    ensures Realizes(e, a, end, stk, opt, fl, Ok(j))
  {
    hide Joins;
    if Joins(e, b, Run(at, j, stk)) {
      Chain(e, a, b, Run(at, j, stk));
      if at != end {
        Jumps(e, at, j, stk);
        Chain(e, a, Run(at, j, stk), Run(end, j, stk));
      }
    } else {
      if opt { FullHasAll(e.s[j]); }
      Chain(e, a, b, Backtrack(stk));
    }
  }

  /** The first alternative passed its test and failed: so does the second one, unless it matches
      nothing before a character that cannot follow. */
  lemma NoSecond(e: Env, p1: Tree, p2: Tree, opt: bool, fl: Charset, i: nat, n: nat, from: State, end: int, stk: Stack)
    requires n > 0 && TestedChoice(e.m, p1, p2, fl) && (opt ==> fl == FULLSET)
    requires i < |e.s| && e.s[i] in First(e.m.g, p1, FULLSET, DEPTH).cs
    requires Eval(e.m.g, p1, e.s, i, n - 1).Fail? && Joins(e, from, Backtrack(stk))
    ensures Realizes(e, from, end, stk, opt, fl, Eval(e.m.g, TChoice(p1, p2), e.s, i, n))
  {
    hide Joins, First, HeadFail;
    if HeadFail(e.m.g, p1, DEPTH) { HeadFailExact(e.m.g, p1, DEPTH, e.s, i, n - 1); }
    if Eval(e.m.g, p2, e.s, i, n - 1).Ok? {
      FirstSound(e.m.g, p2, fl, DEPTH, e.s, i, n - 1);
      if opt { FullHasAll(e.s[i]); }
    }
  }

  lemma TestedNeedsChar(m: Mode, p1: Tree, p2: Tree, fl: Charset)
    requires TestedChoice(m, p1, p2, fl)
    ensures !First(m.g, p1, FULLSET, DEPTH).e
  {
    hide First, HeadFail;
    if HeadFail(m.g, p1, DEPTH) { HeadFailNeedsChar(m.g, p1, FULLSET, DEPTH); }
  }

  lemma NothingRealized(e: Env, a: State, end: int, stk: Stack, opt: bool, fl: Charset)
    ensures Realizes(e, a, end, stk, opt, fl, OutOfFuel)
  {
  }

  lemma TestedChoiceCorrect(e: Env, p1: Tree, p2: Tree, opt: bool, tt: Test, fl: Charset, i: nat, n: nat, pc: int,
      stk: Stack)
    requires n > 0 && Ready(e) && Entry(e, opt, tt, fl, i, stk)
    requires WellFormed(e.m.g, p1, e.m.main) && WellFormed(e.m.g, p2, e.m.main)
    requires LoopsSafe(e.m, p1, false, fl) && LoopsSafe(e.m, p2, opt, fl)
    requires TestedChoice(e.m, p1, p2, fl)
    requires Embedded(e, pc, GenChoice(e.m, p1, p2, opt, fl))
    ensures Realizes(e, Run(pc, i, stk), pc + |GenChoice(e.m, p1, p2, opt, fl)|, stk, opt, fl,
            Eval(e.m.g, TChoice(p1, p2), e.s, i, n))
    decreases n, 0
  {
    hide Joins, First, Gen, GenChoice, Embedded, TestSize, TestOf, Ready, Step, WellFormed, LoopsSafe, Eval;
    hide HeadFail, CodeTest, FixedLen, Realizes, TestedChoice;
    TestedNeedsChar(e.m, p1, p2, fl);
    TestedChoiceLayout(e, p1, p2, opt, fl, pc);
    var cs := First(e.m.g, p1, FULLSET, DEPTH).cs;
    var test := TestOf(cs, false);
    var sz := TestSize(cs, false);
    var at := pc + sz + |Gen(e.m, p1, false, test, fl)|;
    var l1 := at + if p2.TTrue? then 0 else 2;
    var end := pc + |GenChoice(e.m, p1, p2, opt, fl)|;
    var r1 := Eval(e.m.g, p1, e.s, i, n - 1);
    var a := Run(pc, i, stk);
    EvalChoice(e.m.g, p1, p2, e.s, i, n);
    var pass := MaybeTest(e, cs, false, l1 - pc, pc, i, stk);
    if !pass {
      TestRefutes(e.m.g, p1, e.s, i, n - 1);
      Correct(e, p2, opt, NoTest, fl, i, n - 1, l1, stk);
      if r1.Fail? {
        RealizesFrom(e, a, Run(l1, i, stk), end, stk, opt, fl, Eval(e.m.g, p2, e.s, i, n - 1));
      } else {
        NothingRealized(e, a, end, stk, opt, fl);
      }
    } else {
      var b := Run(pc + sz, i, stk);
      Correct(e, p1, false, test, fl, i, n - 1, pc + sz, stk);
      if r1.Ok? {
        SkipSecond(e, a, b, at, end, stk, opt, fl, r1.pos);
      } else if r1.Fail? {
        Backtracked(e, b, at, stk, false, fl);
        Chain(e, a, b, Backtrack(stk));
        NoSecond(e, p1, p2, opt, fl, i, n, a, end, stk);
      } else {
        NothingRealized(e, a, end, stk, opt, fl);
      }
    }
  }

  lemma SharedChoiceCorrect(e: Env, p1: Tree, fl: Charset, i: nat, n: nat, pc: int, stk: Stack)
    requires n > 0 && Ready(e) && Entry(e, true, NoTest, fl, i, stk)
    requires WellFormed(e.m.g, p1, e.m.main) && LoopsSafe(e.m, p1, true, FULLSET)
    requires !TestedChoice(e.m, p1, TTrue, fl)
    requires Embedded(e, pc, GenChoice(e.m, p1, TTrue, true, fl))
    ensures Realizes(e, Run(pc, i, stk), pc + |GenChoice(e.m, p1, TTrue, true, fl)|, stk, true, fl,
            Eval(e.m.g, TChoice(p1, TTrue), e.s, i, n))
    decreases n, 0
  {
    hide Joins, First, HeadFail, FixedLen, Ready, WellFormed, LoopsSafe, TestedChoice, Eval, Step;
    hide Gen, GenChoice, Embedded;
    var c1 := Gen(e.m, p1, true, NoTest, FULLSET);
    SharedChoiceCode(e.m, p1, fl);
    Split(e, pc, Emit(IPartialCommit(2)), c1);
    Head(e, pc, IPartialCommit(2));
    var a := Run(pc, i, stk);
    var stk' := Choice(stk.alt, i, stk.below);
    var b := Run(pc + 2, i, stk');
    Recommits(e, pc, i, stk);
    EvalChoice(e.m.g, p1, TTrue, e.s, i, n);
    EvalTrue(e.m.g, e.s, i, n - 1);
    Correct(e, p1, true, NoTest, FULLSET, i, n - 1, pc + 2, stk');
    var r1 := Eval(e.m.g, p1, e.s, i, n - 1);
    RealizesFrom(e, a, b, pc + 2 + |c1|, stk', true, FULLSET, r1);
  }

  lemma PlainChoiceLayout(e: Env, p1: Tree, p2: Tree, opt: bool, fl: Charset, pc: int)
    requires !TestedChoice(e.m, p1, p2, fl) && !(opt && p2.TTrue?)
    requires Embedded(e, pc, GenChoice(e.m, p1, p2, opt, fl))
    ensures var f1 := First(e.m.g, p1, FULLSET, DEPTH);
            var sz := TestSize(f1.cs, f1.e);
            var c1 := Gen(e.m, p1, p2.TTrue?, TestOf(f1.cs, f1.e), FULLSET);
            var c2 := Gen(e.m, p2, opt, NoTest, fl);
            && |GenChoice(e.m, p1, p2, opt, fl)| == sz + 4 + |c1| + |c2|
            && Embedded(e, pc, CodeTest(f1.cs, f1.e, sz + 4 + |c1|))
            && 0 <= pc + sz < |e.code| && e.code[pc + sz] == IChoice(4 + |c1|)
            && Embedded(e, pc + sz + 2, c1)
            && 0 <= pc + sz + 2 + |c1| < |e.code| && e.code[pc + sz + 2 + |c1|] == ICommit(2 + |c2|)
            && Embedded(e, pc + sz + 4 + |c1|, c2)
            && (p2.TTrue? ==> c2 == [])
  {
    hide First, HeadFail, Placed, Embedded, Emit, CodeTest, TestSize, TestOf, Gen;
    var f1 := First(e.m.g, p1, FULLSET, DEPTH);
    var sz := TestSize(f1.cs, f1.e);
    var c1 := Gen(e.m, p1, p2.TTrue?, TestOf(f1.cs, f1.e), FULLSET);
    var c2 := Gen(e.m, p2, opt, NoTest, fl);
    var ct := CodeTest(f1.cs, f1.e, sz + 4 + |c1|);
    var ch := Emit(IChoice(4 + |c1|));
    var cm := Emit(ICommit(2 + |c2|));
    if p2.TTrue? { TrueHasNoCode(e.m, opt, NoTest, fl); }
    Split(e, pc, ct + ch + c1 + cm, c2);
    Split(e, pc, ct + ch + c1, cm);
    Split(e, pc, ct + ch, c1);
    Split(e, pc, ct, ch);
    Head(e, pc + sz, IChoice(4 + |c1|));
    Head(e, pc + sz + 2 + |c1|, ICommit(2 + |c2|));
  }

  lemma PlainChoiceCorrect(e: Env, p1: Tree, p2: Tree, opt: bool, tt: Test, fl: Charset, i: nat, n: nat, pc: int,
      stk: Stack)
    requires n > 0 && Ready(e) && Entry(e, opt, tt, fl, i, stk)
    requires WellFormed(e.m.g, p1, e.m.main) && WellFormed(e.m.g, p2, e.m.main)
    requires LoopsSafe(e.m, p1, p2.TTrue?, FULLSET) && LoopsSafe(e.m, p2, opt, fl)
    requires !TestedChoice(e.m, p1, p2, fl) && !(opt && p2.TTrue?)
    requires Embedded(e, pc, GenChoice(e.m, p1, p2, opt, fl))
    ensures Realizes(e, Run(pc, i, stk), pc + |GenChoice(e.m, p1, p2, opt, fl)|, stk, opt, fl,
            Eval(e.m.g, TChoice(p1, p2), e.s, i, n))
    decreases n, 0
  {
    hide Joins, First, HeadFail, Gen, GenChoice, Embedded, TestSize, TestOf, Ready, Step, WellFormed, LoopsSafe,
        TestedChoice, Realizes, Eval;
    PlainChoiceLayout(e, p1, p2, opt, fl, pc);
    var f1 := First(e.m.g, p1, FULLSET, DEPTH);
    var test := TestOf(f1.cs, f1.e);
    var n1 := |Gen(e.m, p1, p2.TTrue?, test, FULLSET)|;
    var sz := TestSize(f1.cs, f1.e);
    var off := sz + 4 + n1;
    var l1 := pc + off;
    var end := pc + |GenChoice(e.m, p1, p2, opt, fl)|;
    var r1 := Eval(e.m.g, p1, e.s, i, n - 1);
    var r := Eval(e.m.g, TChoice(p1, p2), e.s, i, n);
    var a := Run(pc, i, stk);
    EvalChoice(e.m.g, p1, p2, e.s, i, n);
    if r.OutOfFuel? {
      Undefined(e, a, end, stk, opt, fl);
      return;
    }
    Correct(e, p2, opt, NoTest, fl, i, n - 1, l1, stk);
    var pass := MaybeTest(e, f1.cs, f1.e, off, pc, i, stk);
    if !pass {
      TestRefutes(e.m.g, p1, e.s, i, n - 1);
      RealizesFrom(e, a, Run(l1, i, stk), end, stk, opt, fl, r);
    } else {
      var stk' := Choice(l1, i, stk);
      var b := Run(pc + sz + 2, i, stk');
      Pushes(e, pc + sz, i, stk);
      Chain(e, a, Run(pc + sz, i, stk), b);
      Correct(e, p1, p2.TTrue?, test, FULLSET, i, n - 1, pc + sz + 2, stk');
      if r1.Fail? {
        Backtracked(e, b, pc + sz + 2 + n1, stk', p2.TTrue?, FULLSET);
        Chain(e, a, b, Run(l1, i, stk));
        RealizesFrom(e, a, Run(l1, i, stk), end, stk, opt, fl, r);
      } else if r1.Ok? {
        CommitAfter(e, a, b, pc + sz + 2 + n1, l1, i, stk, p2.TTrue?, r1.pos, end);
        AtEnd(e, a, end, stk, opt, fl, r1.pos);
      }
    }
  }

  /** Committing the choice pushed around the first alternative. */
  lemma CommitAfter(e: Env, a: State, b: State, at: int, l1: int, i: nat, stk: Stack, opt: bool, j: nat, end: int)
    requires Joins(e, a, b)
    requires Realizes(e, b, at, Choice(l1, i, stk), opt, FULLSET, Ok(j))
    requires 0 <= at < |e.code| && e.code[at] == ICommit(end - at) && j <= |e.s|
    requires opt ==> end == l1
    ensures Joins(e, a, Run(end, j, stk))
  {
    hide Joins, First, HeadFail, FixedLen, Nofail;
    if j < |e.s| { FullHasAll(e.s[j]); }
    if opt && Joins(e, b, Run(l1, j, stk)) {
      Chain(e, a, b, Run(end, j, stk));
    } else {
      var k: nat :| Joins(e, b, Run(at, j, Choice(l1, k, stk)));
      OneStep(e, Run(at, j, Choice(l1, k, stk)));
      Chain(e, b, Run(at, j, Choice(l1, k, stk)), Run(end, j, stk));
      Chain(e, a, b, Run(end, j, stk));
    }
  }

  lemma {:induction false} SpanCorrect(g: Grammar, p: Tree, s: Subject, i: nat, n: nat)
    requires i <= |s| && ToCharset(p).Some? && Eval(g, TRep(p), s, i, n).Ok?
    ensures Eval(g, TRep(p), s, i, n).pos == SpanEnd(s, i, ToCharset(p).value)
    decreases n
  {
    hide Joins, First, HeadFail, FixedLen, Nofail;
    var r := Eval(g, p, s, i, n - 1);
    if i < |s| { FullHasAll(s[i]); }
    if r.Ok? { SpanCorrect(g, p, s, r.pos, n - 1); }
  }

  lemma RepNeverFails(g: Grammar, p: Tree, s: Subject, i: nat, n: nat)
    requires i <= |s|
    ensures !Eval(g, TRep(p), s, i, n).Fail?
  {
    hide Joins, First, HeadFail, FixedLen, Nofail;
    NofailSound(g, TRep(p), s, i, n, 0);
  }

  lemma RepCorrect(e: Env, p: Tree, opt: bool, tt: Test, fl: Charset, i: nat, n: nat, pc: int, stk: Stack)
    requires n > 0 && Ready(e) && Entry(e, opt, tt, fl, i, stk)
    requires WellFormed(e.m.g, TRep(p), e.m.main) && LoopsSafe(e.m, TRep(p), opt, fl)
    requires Embedded(e, pc, GenRep(e.m, p, opt, fl))
    ensures Realizes(e, Run(pc, i, stk), pc + |GenRep(e.m, p, opt, fl)|, stk, opt, fl, Eval(e.m.g, TRep(p), e.s, i, n))
    decreases n, 2
  {
    hide Joins, First, HeadFail, FixedLen, Nofail;
    RepNeverFails(e.m.g, p, e.s, i, n);
    if ToCharset(p).Some? {
      Head(e, pc, ISpan(ToCharset(p).value));
      OneStep(e, Run(pc, i, stk));
      if Eval(e.m.g, TRep(p), e.s, i, n).Ok? { SpanCorrect(e.m.g, p, e.s, i, n); }
    } else if TestedLoop(e.m, p, fl) {
      if opt && e.m.asWritten {
        SameCodeUnderOpt(e.m, p, TestOf(First(e.m.g, p, FULLSET, DEPTH).cs, false), FULLSET);
      }
      TestedLoopCorrect(e, p, opt, fl, i, n, pc, stk);
    } else {
      PlainLoopEntry(e, p, opt, fl, i, n, pc, stk);
    }
  }

  lemma TestedLoopLayout(e: Env, p: Tree, opt: bool, fl: Charset, pc: int)
    requires ToCharset(p).None? && TestedLoop(e.m, p, fl)
    requires Embedded(e, pc, GenRep(e.m, p, opt, fl))
    ensures var cs := First(e.m.g, p, FULLSET, DEPTH).cs;
            var sz := TestSize(cs, false);
            var c := Gen(e.m, p, e.m.asWritten && opt, TestOf(cs, false), FULLSET);
            && |GenRep(e.m, p, opt, fl)| == sz + |c| + 2
            && Embedded(e, pc, CodeTest(cs, false, sz + |c| + 2))
            && Embedded(e, pc + sz, c)
            && 0 <= pc + sz + |c| < |e.code| && e.code[pc + sz + |c|] == IJmp(-(sz + |c|))
  {
    hide First, HeadFail, Placed, Embedded, Emit, CodeTest, TestSize, TestOf, Gen;
    var cs := First(e.m.g, p, FULLSET, DEPTH).cs;
    var sz := TestSize(cs, false);
    var c := Gen(e.m, p, e.m.asWritten && opt, TestOf(cs, false), FULLSET);
    var ct := CodeTest(cs, false, sz + |c| + 2);
    var jmp := Emit(IJmp(-(sz + |c|)));
    Split(e, pc, ct + c, jmp);
    Split(e, pc, ct, c);
    Head(e, pc + sz + |c|, IJmp(-(sz + |c|)));
  }

  lemma TestedLoopCorrect(e: Env, p: Tree, opt: bool, fl: Charset, i: nat, n: nat, pc: int, stk: Stack)
    requires n > 0 && Ready(e) && Entry(e, opt, NoTest, fl, i, stk)
    requires WellFormed(e.m.g, p, e.m.main) && LoopsSafe(e.m, p, false, FULLSET)
    requires ToCharset(p).None? && TestedLoop(e.m, p, fl)
    requires var f := First(e.m.g, p, FULLSET, DEPTH);
             Gen(e.m, p, e.m.asWritten && opt, TestOf(f.cs, false), FULLSET)
               == Gen(e.m, p, false, TestOf(f.cs, false), FULLSET)
    requires Embedded(e, pc, GenRep(e.m, p, opt, fl))
    ensures Realizes(e, Run(pc, i, stk), pc + |GenRep(e.m, p, opt, fl)|, stk, opt, fl, Eval(e.m.g, TRep(p), e.s, i, n))
    decreases n, 0
  {
    hide Joins, First, HeadFail, Gen, GenRep, Embedded, TestSize, TestOf, Step, Ready, WellFormed, LoopsSafe, Eval;
    RepNeverFails(e.m.g, p, e.s, i, n);
    TestedLoopLayout(e, p, opt, fl, pc);
    var f := First(e.m.g, p, FULLSET, DEPTH);
    var test := TestOf(f.cs, false);
    var sz := TestSize(f.cs, false);
    var at := pc + sz + |Gen(e.m, p, false, test, FULLSET)|;
    var end := pc + |GenRep(e.m, p, opt, fl)|;
    var a := Run(pc, i, stk);
    var r1 := Eval(e.m.g, p, e.s, i, n - 1);
    var r := Eval(e.m.g, TRep(p), e.s, i, n);
    EvalRep(e.m.g, p, e.s, i, n);
    if HeadFail(e.m.g, p, DEPTH) { HeadFailNeedsChar(e.m.g, p, FULLSET, DEPTH); }
    var pass := MaybeTest(e, f.cs, false, end - pc, pc, i, stk);
    if !pass {
      TestRefutes(e.m.g, p, e.s, i, n - 1);
    } else {
      var b := Run(pc + sz, i, stk);
      Correct(e, p, false, test, FULLSET, i, n - 1, pc + sz, stk);
      if r1.Ok? {
        var d := Run(at, r1.pos, stk);
        Exact(e, b, at, stk, r1.pos);
        Chain(e, a, b, d);
        Jumps(e, at, r1.pos, stk);
        Chain(e, a, d, Run(pc, r1.pos, stk));
        if r.Ok? {
          TestedLoopCorrect(e, p, opt, fl, r1.pos, n - 1, pc, stk);
          RealizesFrom(e, a, Run(pc, r1.pos, stk), end, stk, opt, fl, r);
        }
      } else if r1.Fail? {
        if HeadFail(e.m.g, p, DEPTH) { HeadFailExact(e.m.g, p, DEPTH, e.s, i, n - 1); }
        Chain(e, a, b, Backtrack(stk));
      }
    }
  }

  lemma PlainLoopLayout(e: Env, p: Tree, opt: bool, fl: Charset, pc: int)
    requires ToCharset(p).None? && !TestedLoop(e.m, p, fl)
    requires Embedded(e, pc, GenRep(e.m, p, opt, fl))
    ensures var f := First(e.m.g, p, FULLSET, DEPTH);
            var sz := TestSize(f.cs, f.e);
            var c := Gen(e.m, p, false, NoTest, FULLSET);
            && |GenRep(e.m, p, opt, fl)| == sz + 4 + |c|
            && Embedded(e, pc, CodeTest(f.cs, f.e, sz + 4 + |c|))
            && 0 <= pc + sz < |e.code|
            && e.code[pc + sz] == (if opt then IPartialCommit(2) else IChoice(4 + |c|))
            && Embedded(e, pc + sz + 2, c)
            && 0 <= pc + sz + 2 + |c| < |e.code| && e.code[pc + sz + 2 + |c|] == IPartialCommit(-|c|)
  {
    hide First, HeadFail, Placed, Embedded, Emit, CodeTest, TestSize, TestOf, Gen;
    var f := First(e.m.g, p, FULLSET, DEPTH);
    var sz := TestSize(f.cs, f.e);
    var c := Gen(e.m, p, false, NoTest, FULLSET);
    var ct := CodeTest(f.cs, f.e, sz + 4 + |c|);
    var open := if opt then Emit(IPartialCommit(2)) else Emit(IChoice(4 + |c|));
    var cm := Emit(IPartialCommit(-|c|));
    Split(e, pc, ct + open + c, cm);
    Split(e, pc, ct + open, c);
    Split(e, pc, ct, open);
    if opt { Head(e, pc + sz, IPartialCommit(2)); } else { Head(e, pc + sz, IChoice(4 + |c|)); }
    Head(e, pc + sz + 2 + |c|, IPartialCommit(-|c|));
  }

  /** Opening a loop pushes its choice, or brings the enclosing one up to date. */
  lemma EnterLoop(e: Env, pc: int, i: nat, stk: Stack, opt: bool, end: int)
    requires 0 <= pc < |e.code| && (opt ==> stk.Choice?)
    requires e.code[pc] == if opt then IPartialCommit(2) else IChoice(end - pc)
    ensures var alt, below := if opt then stk.alt else end, if opt then stk.below else stk;
            Joins(e, Run(pc, i, stk), Run(pc + 2, i, Choice(alt, i, below)))
  {
    hide Joins;
    OneStep(e, Run(pc, i, stk));
  }

  /** A loop is left at its end, or by the enclosing choice. */
  lemma LeftLoop(e: Env, a: State, end: int, stk: Stack, opt: bool, fl: Charset, r: Outcome)
    requires !r.Fail? && (opt ==> stk.Choice?)
    requires r.Ok? ==>
               || Joins(e, a, Run(end, r.pos, stk))
               || (opt && Joins(e, a, Run(stk.alt, r.pos, stk.below)))
    ensures Realizes(e, a, end, stk, opt, fl, r)
  {
    hide Joins;
  }

  lemma PlainLoopEntry(e: Env, p: Tree, opt: bool, fl: Charset, i: nat, n: nat, pc: int, stk: Stack)
    requires n > 0 && Ready(e) && Entry(e, opt, NoTest, fl, i, stk)
    requires WellFormed(e.m.g, p, e.m.main) && LoopsSafe(e.m, p, false, FULLSET)
    requires ToCharset(p).None? && !TestedLoop(e.m, p, fl)
    requires Embedded(e, pc, GenRep(e.m, p, opt, fl))
    ensures Realizes(e, Run(pc, i, stk), pc + |GenRep(e.m, p, opt, fl)|, stk, opt, fl, Eval(e.m.g, TRep(p), e.s, i, n))
    decreases n, 1
  {
    hide Joins, First, HeadFail, Gen, GenRep, Embedded, TestSize, TestOf, Ready, WellFormed, LoopsSafe, TestedLoop,
        Eval, Step, Realizes, FixedLen, CodeTest, ToCharset;
    RepNeverFails(e.m.g, p, e.s, i, n);
    PlainLoopLayout(e, p, opt, fl, pc);
    var f := First(e.m.g, p, FULLSET, DEPTH);
    var sz := TestSize(f.cs, f.e);
    var end := pc + |GenRep(e.m, p, opt, fl)|;
    var a := Run(pc, i, stk);
    var r := Eval(e.m.g, TRep(p), e.s, i, n);
    EvalRep(e.m.g, p, e.s, i, n);
    var pass := MaybeTest(e, f.cs, f.e, end - pc, pc, i, stk);
    if !pass {
      TestRefutes(e.m.g, p, e.s, i, n - 1);
      LeftLoop(e, a, end, stk, opt, fl, r);
    } else {
      var l1 := pc + sz + 2;
      var alt := if opt then stk.alt else end;
      var below := if opt then stk.below else stk;
      EnterLoop(e, pc + sz, i, stk, opt, end);
      Chain(e, a, Run(pc + sz, i, stk), Run(l1, i, Choice(alt, i, below)));
      if r.Ok? {
        LoopCorrect(e, p, i, n, l1, alt, below);
        Chain(e, a, Run(l1, i, Choice(alt, i, below)), Run(alt, r.pos, below));
      }
      LeftLoop(e, a, end, stk, opt, fl, r);
    }
  }

  /** A loop kept by partial commits leaves through its choice, at the last position reached. */
  lemma LoopCorrect(e: Env, p: Tree, i: nat, n: nat, l1: int, alt: int, below: Stack)
    requires n > 0 && Ready(e) && i <= |e.s|
    requires WellFormed(e.m.g, p, e.m.main) && LoopsSafe(e.m, p, false, FULLSET)
    requires Embedded(e, l1, Gen(e.m, p, false, NoTest, FULLSET))
    requires var c := Gen(e.m, p, false, NoTest, FULLSET);
             0 <= l1 + |c| < |e.code| && e.code[l1 + |c|] == IPartialCommit(-|c|)
    requires Eval(e.m.g, TRep(p), e.s, i, n).Ok?
    ensures Joins(e, Run(l1, i, Choice(alt, i, below)), Run(alt, Eval(e.m.g, TRep(p), e.s, i, n).pos, below))
    decreases n, 0
  {
    hide Joins, Gen, Embedded, Ready, WellFormed, LoopsSafe, Eval, Realizes, Step;
    var c := Gen(e.m, p, false, NoTest, FULLSET);
    var stk := Choice(alt, i, below);
    var a := Run(l1, i, stk);
    var r := Eval(e.m.g, TRep(p), e.s, i, n);
    var r1 := Eval(e.m.g, p, e.s, i, n - 1);
    EvalRep(e.m.g, p, e.s, i, n);
    Correct(e, p, false, NoTest, FULLSET, i, n - 1, l1, stk);
    if r1.Ok? {
      var k := r1.pos;
      Exact(e, a, l1 + |c|, stk, k);
      Recommits(e, l1 + |c|, k, stk);
      Chain(e, a, Run(l1 + |c|, k, stk), Run(l1, k, Choice(alt, k, below)));
      LoopCorrect(e, p, k, n - 1, l1, alt, below);
      Chain(e, a, Run(l1, k, Choice(alt, k, below)), Run(alt, r.pos, below));
    } else {
      Backtracked(e, a, l1 + |c|, stk, false, FULLSET);
    }
  }

  lemma NotLayout(e: Env, p: Tree, pc: int)
    requires Embedded(e, pc, GenNot(e.m, p))
    ensures var f := First(e.m.g, p, FULLSET, DEPTH);
            var sz := TestSize(f.cs, f.e);
            var c := Gen(e.m, p, false, NoTest, FULLSET);
            if HeadFail(e.m.g, p, DEPTH) then
              && |GenNot(e.m, p)| == sz + 1
              && Embedded(e, pc, CodeTest(f.cs, f.e, sz + 1))
              && 0 <= pc + sz < |e.code| && e.code[pc + sz] == IFail
            else
              && |GenNot(e.m, p)| == sz + 3 + |c|
              && Embedded(e, pc, CodeTest(f.cs, f.e, sz + 3 + |c|))
              && 0 <= pc + sz < |e.code| && e.code[pc + sz] == IChoice(3 + |c|)
              && Embedded(e, pc + sz + 2, c)
              && 0 <= pc + sz + 2 + |c| < |e.code| && e.code[pc + sz + 2 + |c|] == IFailTwice
  {
    hide First, HeadFail, Placed, Embedded, Emit, CodeTest, TestSize, TestOf, Gen;
    var f := First(e.m.g, p, FULLSET, DEPTH);
    var sz := TestSize(f.cs, f.e);
    var c := Gen(e.m, p, false, NoTest, FULLSET);
    if HeadFail(e.m.g, p, DEPTH) {
      Split(e, pc, CodeTest(f.cs, f.e, sz + 1), Emit(IFail));
      Head(e, pc + sz, IFail);
    } else {
      var ct := CodeTest(f.cs, f.e, sz + 2 + |c| + 1);
      var ch := Emit(IChoice(2 + |c| + 1));
      Split(e, pc, ct + ch + c, Emit(IFailTwice));
      Split(e, pc, ct + ch, c);
      Split(e, pc, ct, ch);
      Head(e, pc + sz, IChoice(2 + |c| + 1));
      Head(e, pc + sz + 2 + |c|, IFailTwice);
    }
  }

  lemma NotCorrect(e: Env, p: Tree, opt: bool, tt: Test, fl: Charset, i: nat, n: nat, pc: int, stk: Stack)
    requires n > 0 && Ready(e) && Entry(e, opt, tt, fl, i, stk)
    requires WellFormed(e.m.g, p, e.m.main) && (HeadFail(e.m.g, p, DEPTH) || LoopsSafe(e.m, p, false, FULLSET))
    requires Embedded(e, pc, GenNot(e.m, p))
    ensures Realizes(e, Run(pc, i, stk), pc + |GenNot(e.m, p)|, stk, opt, fl, Eval(e.m.g, TNot(p), e.s, i, n))
    decreases n, 0
  {
    hide Joins, First, HeadFail, Gen, GenNot, Embedded, TestSize, TestOf, Ready, WellFormed, LoopsSafe, Step, Eval;
    NotLayout(e, p, pc);
    var f := First(e.m.g, p, FULLSET, DEPTH);
    var sz := TestSize(f.cs, f.e);
    var end := pc + |GenNot(e.m, p)|;
    var a := Run(pc, i, stk);
    var r1 := Eval(e.m.g, p, e.s, i, n - 1);
    EvalNot(e.m.g, p, e.s, i, n);
    var pass := MaybeTest(e, f.cs, f.e, end - pc, pc, i, stk);
    if !pass {
      TestRefutes(e.m.g, p, e.s, i, n - 1);
    } else if HeadFail(e.m.g, p, DEPTH) {
      HeadFailNeedsChar(e.m.g, p, FULLSET, DEPTH);
      if !r1.OutOfFuel? {
        HeadFailExact(e.m.g, p, DEPTH, e.s, i, n - 1);
        Fails(e, pc + sz, i, stk);
        Chain(e, a, Run(pc + sz, i, stk), Backtrack(stk));
      }
    } else {
      var at := pc + sz + 2 + |Gen(e.m, p, false, NoTest, FULLSET)|;
      var stk' := Choice(end, i, stk);
      var b := Run(pc + sz + 2, i, stk');
      Pushes(e, pc + sz, i, stk);
      Chain(e, a, Run(pc + sz, i, stk), b);
      Correct(e, p, false, NoTest, FULLSET, i, n - 1, pc + sz + 2, stk');
      if r1.Ok? {
        var d := Run(at, r1.pos, stk');
        Exact(e, b, at, stk', r1.pos);
        Chain(e, a, b, d);
        FailsTwice(e, at, r1.pos, stk');
        Chain(e, a, d, Backtrack(stk));
      } else if r1.Fail? {
        Chain(e, a, b, Run(end, i, stk));
      }
    }
  }

  lemma AndLayout(e: Env, p: Tree, tt: Test, pc: int)
    requires Embedded(e, pc, GenAnd(e.m, p, tt))
    ensures var len := FixedLen(e.m.g, p);
            var c := Gen(e.m, p, false, tt, FULLSET);
            if 0 <= len <= MAXBEHIND then
              && |GenAnd(e.m, p, tt)| == |c| + (if len > 0 then 1 else 0)
              && Embedded(e, pc, c)
              && (len > 0 ==> 0 <= pc + |c| < |e.code| && e.code[pc + |c|] == IBehind(len))
            else
              && |GenAnd(e.m, p, tt)| == 5 + |c|
              && 0 <= pc < |e.code| && e.code[pc] == IChoice(4 + |c|)
              && Embedded(e, pc + 2, c)
              && 0 <= pc + 2 + |c| < |e.code| && e.code[pc + 2 + |c|] == IBackCommit(3)
              && 0 <= pc + 4 + |c| < |e.code| && e.code[pc + 4 + |c|] == IFail
  {
    hide FixedLen, Placed, Embedded, Emit, Gen;
    var len := FixedLen(e.m.g, p);
    var c := Gen(e.m, p, false, tt, FULLSET);
    if 0 <= len <= MAXBEHIND {
      Split(e, pc, c, BehindCode(len));
      if len > 0 { Head(e, pc + |c|, IBehind(len)); }
    } else {
      var ch := Emit(IChoice(2 + |c| + 2));
      Split(e, pc, ch + c + Emit(IBackCommit(3)), Emit(IFail));
      Split(e, pc, ch + c, Emit(IBackCommit(3)));
      Split(e, pc, ch, c);
      Head(e, pc, IChoice(2 + |c| + 2));
      Head(e, pc + 2 + |c|, IBackCommit(3));
      Head(e, pc + 4 + |c|, IFail);
    }
  }

  lemma AndCorrect(e: Env, p: Tree, opt: bool, tt: Test, fl: Charset, i: nat, n: nat, pc: int, stk: Stack)
    requires n > 0 && Ready(e) && Entry(e, opt, tt, fl, i, stk)
    requires WellFormed(e.m.g, p, e.m.main) && LoopsSafe(e.m, p, false, FULLSET)
    requires Embedded(e, pc, GenAnd(e.m, p, tt))
    ensures Realizes(e, Run(pc, i, stk), pc + |GenAnd(e.m, p, tt)|, stk, opt, fl, Eval(e.m.g, TAnd(p), e.s, i, n))
    decreases n, 0
  {
    hide Joins, FixedLen, Gen, GenAnd, Embedded, Ready, WellFormed, LoopsSafe, Eval;
    AndLayout(e, p, tt, pc);
    var len := FixedLen(e.m.g, p);
    var n1 := |Gen(e.m, p, false, tt, FULLSET)|;
    var a := Run(pc, i, stk);
    var r1 := Eval(e.m.g, p, e.s, i, n - 1);
    EvalAnd(e.m.g, p, e.s, i, n);
    if 0 <= len <= MAXBEHIND {
      Correct(e, p, false, tt, FULLSET, i, n - 1, pc, stk);
      if r1.Ok? {
        Exact(e, a, pc + n1, stk, r1.pos);
        FixedLenSound(e.m.g, p, e.s, i, n - 1);
        if len > 0 {
          LooksBack(e, pc + n1, r1.pos, stk);
          Chain(e, a, Run(pc + n1, r1.pos, stk), Run(pc + n1 + 1, i, stk));
        }
      }
    } else {
      var stk' := Choice(pc + 4 + n1, i, stk);
      var b := Run(pc + 2, i, stk');
      Pushes(e, pc, i, stk);
      Correct(e, p, false, tt, FULLSET, i, n - 1, pc + 2, stk');
      if r1.Ok? {
        var d := Run(pc + 2 + n1, r1.pos, stk');
        Exact(e, b, pc + 2 + n1, stk', r1.pos);
        Chain(e, a, b, d);
        OneStep(e, d);
        Chain(e, a, d, Run(pc + 5 + n1, i, stk));
      } else if r1.Fail? {
        var d := Run(pc + 4 + n1, i, stk);
        Chain(e, a, b, d);
        Fails(e, d.pc, i, stk);
        Chain(e, a, d, Backtrack(stk));
      }
    }
  }

  lemma BehindCorrect(e: Env, len: nat, p: Tree, opt: bool, tt: Test, fl: Charset, i: nat, n: nat, pc: int, stk: Stack)
    requires n > 0 && Ready(e) && Entry(e, opt, tt, fl, i, stk)
    requires 0 < len == FixedLen(e.m.g, p) && WellFormed(e.m.g, p, e.m.main) && LoopsSafe(e.m, p, false, FULLSET)
    requires Embedded(e, pc, BehindCode(len) + Gen(e.m, p, false, NoTest, FULLSET))
    ensures Realizes(e, Run(pc, i, stk), pc + 1 + |Gen(e.m, p, false, NoTest, FULLSET)|, stk, opt, fl,
            Eval(e.m.g, TBehind(len, p), e.s, i, n))
    decreases n, 0
  {
    hide Joins, Gen, FixedLen, Ready, WellFormed, LoopsSafe, Step, Embedded;
    var c := Gen(e.m, p, false, NoTest, FULLSET);
    Split(e, pc, Emit(IBehind(len)), c);
    Head(e, pc, IBehind(len));
    var a := Run(pc, i, stk);
    LooksBack(e, pc, i, stk);
    if len <= i {
      var r1 := Eval(e.m.g, p, e.s, i - len, n - 1);
      if r1.Ok? { FixedLenSound(e.m.g, p, e.s, i - len, n - 1); }
      Correct(e, p, false, NoTest, FULLSET, i - len, n - 1, pc + 1, stk);
      BehindDone(e, a, Run(pc + 1, i - len, stk), pc + 1 + |c|, stk, opt, fl, r1);
    }
  }

  lemma BehindDone(e: Env, a: State, b: State, end: int, stk: Stack, opt: bool, fl: Charset, r: Outcome)
    requires Joins(e, a, b) && Realizes(e, b, end, stk, false, FULLSET, r)
    ensures Realizes(e, a, end, stk, opt, fl, r)
  {
    hide Joins;
    if r.Ok? {
      Exact(e, b, end, stk, r.pos);
      Chain(e, a, b, Run(end, r.pos, stk));
    } else if r.Fail? {
      Chain(e, a, b, Backtrack(stk));
    }
  }

  /** The first part gave up because of the character that follows it, which the second part
      cannot match. */
  lemma SeqGivesUp(e: Env, p1: Tree, p2: Tree, opt: bool, fl: Charset, k: nat, n: nat, a: State, end: int, stk: Stack)
    requires k < |e.s| && e.s[k] !in SeqFollow(e.m, p1, p2, fl) && (opt ==> fl == FULLSET)
    requires Joins(e, a, Backtrack(stk))
    ensures Realizes(e, a, end, stk, opt, fl, Eval(e.m.g, p2, e.s, k, n))
  {
    hide Joins, First, NeedFollow;
    FullHasAll(e.s[k]);
    if Eval(e.m.g, p2, e.s, k, n).Ok? { FirstSound(e.m.g, p2, fl, DEPTH, e.s, k, n); }
  }

  lemma SeqLayout(e: Env, p1: Tree, p2: Tree, opt: bool, tt: Test, fl: Charset, pc: int)
    requires Embedded(e, pc, Gen(e.m, TSeq(p1, p2), opt, tt, fl))
    ensures var c1 := Gen(e.m, p1, false, tt, SeqFollow(e.m, p1, p2, fl));
            var c2 := Gen(e.m, p2, opt, SeqTest(e.m, p1, tt), fl);
            && |Gen(e.m, TSeq(p1, p2), opt, tt, fl)| == |c1| + |c2|
            && Embedded(e, pc, c1)
            && Embedded(e, pc + |c1|, c2)
  {
    hide SeqFollow, SeqTest, Embedded, CodeChar, CodeCharset, GenChoice, GenRep, GenNot, GenAnd, BehindCode,
        GrammarCode;
    var c1 := Gen(e.m, p1, false, tt, SeqFollow(e.m, p1, p2, fl));
    var c2 := Gen(e.m, p2, opt, SeqTest(e.m, p1, tt), fl);
    assert Gen(e.m, TSeq(p1, p2), opt, tt, fl) == c1 + c2;
    hide Gen;
    Split(e, pc, c1, c2);
  }

  lemma SeqCorrect(e: Env, p1: Tree, p2: Tree, opt: bool, tt: Test, fl: Charset, i: nat, n: nat, pc: int, stk: Stack)
    requires n > 0 && Ready(e) && Entry(e, opt, tt, fl, i, stk)
    requires WellFormed(e.m.g, p1, e.m.main) && WellFormed(e.m.g, p2, e.m.main)
    requires LoopsSafe(e.m, p1, false, SeqFollow(e.m, p1, p2, fl)) && LoopsSafe(e.m, p2, opt, fl)
    requires Embedded(e, pc, Gen(e.m, TSeq(p1, p2), opt, tt, fl))
    ensures Realizes(e, Run(pc, i, stk), pc + |Gen(e.m, TSeq(p1, p2), opt, tt, fl)|, stk, opt, fl,
            Eval(e.m.g, TSeq(p1, p2), e.s, i, n))
    decreases n, 0
  {
    hide Joins, First, FixedLen, SeqFollow, Eval, Ready, WellFormed, LoopsSafe, Step, Embedded, Gen;
    SeqLayout(e, p1, p2, opt, tt, fl, pc);
    var fl1 := SeqFollow(e.m, p1, p2, fl);
    var tt2 := SeqTest(e.m, p1, tt);
    var mid := pc + |Gen(e.m, p1, false, tt, fl1)|;
    var end := pc + |Gen(e.m, TSeq(p1, p2), opt, tt, fl)|;
    var a := Run(pc, i, stk);
    var r1 := Eval(e.m.g, p1, e.s, i, n - 1);
    var r := Eval(e.m.g, TSeq(p1, p2), e.s, i, n);
    EvalSeq(e.m.g, p1, p2, e.s, i, n);
    Correct(e, p1, false, tt, fl1, i, n - 1, pc, stk);
    if r1.Ok? {
      var k := r1.pos;
      if Joins(e, a, Run(mid, k, stk)) {
        hide Realizes;
        if FixedLen(e.m.g, p1) == 0 { FixedLenSound(e.m.g, p1, e.s, i, n - 1); }
        Correct(e, p2, opt, tt2, fl, k, n - 1, mid, stk);
        RealizesFrom(e, a, Run(mid, k, stk), end, stk, opt, fl, r);
      } else {
        SeqGivesUp(e, p1, p2, opt, fl, k, n - 1, a, end, stk);
      }
    }
  }

  lemma RuleLayout(e: Env, k: nat)
    requires RulesPlaced(e) && !e.m.main && k < |e.m.g|
    ensures var dest := e.base + RuleStart(e.m, k);
            var body := Gen(e.m, e.m.g[k], false, NoTest, FULLSET);
            && Embedded(e, dest, body)
            && 0 <= dest + |body| < |e.code| && e.code[dest + |body|] == IRet
  {
    hide Embedded, Gen;
    var dest := e.base + RuleStart(e.m, k);
    var body := Gen(e.m, e.m.g[k], false, NoTest, FULLSET);
    assert Embedded(e, dest, RuleCode(e.m, k)) by { assert e.m.g[k] == e.m.g[k]; }
    Split(e, dest, body, Emit(IRet));
    Head(e, dest + |body|, IRet);
  }

  lemma CallCorrect(e: Env, k: nat, opt: bool, tt: Test, fl: Charset, i: nat, n: nat, pc: int, stk: Stack)
    requires n > 0 && Ready(e) && Entry(e, opt, tt, fl, i, stk)
    requires !e.m.main && k < |e.m.g|
    requires Embedded(e, pc, Emit(IOpenCall(k)))
    ensures Realizes(e, Run(pc, i, stk), pc + 2, stk, opt, fl, Eval(e.m.g, TCall(k), e.s, i, n))
    decreases n, 0
  {
    hide Joins, Gen, RulesPlaced;
    assert Placed(e, pc + 0, Emit(IOpenCall(k))[0]);
    var a := Run(pc, i, stk);
    OneStep(e, a);
    RuleLayout(e, k);
    hide Embedded, LeadsToRet;
    var dest := e.base + RuleStart(e.m, k);
    var ret := dest + |Gen(e.m, e.m.g[k], false, NoTest, FULLSET)|;
    var stk' := if e.code[pc].ICall? then Call(pc + 2, stk) else stk;
    var b := Run(dest, i, stk');
    var r1 := Eval(e.m.g, e.m.g[k], e.s, i, n - 1);
    Correct(e, e.m.g[k], false, NoTest, FULLSET, i, n - 1, dest, stk');
    if r1.Ok? {
      var d := Run(ret, r1.pos, stk');
      Exact(e, b, ret, stk', r1.pos);
      Chain(e, a, b, d);
      if e.code[pc].ICall? { OneStep(e, d); } else { TailReturn(e, pc + 2, ret, r1.pos, stk); }
      Chain(e, a, d, Run(pc + 2, r1.pos, stk));
    } else if r1.Fail? {
      Chain(e, a, b, Backtrack(stk));
    }
  }

  /** Returning from a rule entered by a tail call is returning from its caller. */
  lemma TailReturn(e: Env, at: int, ret: int, j: nat, stk: Stack)
    requires LeadsToRet(e.code, at) && 0 <= ret < |e.code| && e.code[ret].IRet? && j <= |e.s|
    ensures Joins(e, Run(ret, j, stk), Run(at, j, stk))
  {
    hide Joins, First, HeadFail, FixedLen, Nofail;
    var n: nat :| var t := FinalTarget(e.code, at, n); 0 <= t < |e.code| && e.code[t].IRet?;
    var t := FinalTarget(e.code, at, n);
    FollowJumps(e, at, n, j, stk);
    MeetBySteps(e.code, e.s, Run(ret, j, stk), Run(t, j, stk));
    MeetSym(e.code, e.s, Run(at, j, stk), Run(t, j, stk));
    Chain(e, Run(ret, j, stk), Run(t, j, stk), Run(at, j, stk));
  }

  lemma {:induction false} FollowJumps(e: Env, at: int, n: nat, j: nat, stk: Stack)
    requires j <= |e.s|
    ensures Joins(e, Run(at, j, stk), Run(FinalTarget(e.code, at, n), j, stk))
    decreases n
  {
    Same(e, Run(at, j, stk));
    if n > 0 && 0 <= at < |e.code| && e.code[at].IJmp? {
      OneStep(e, Run(at, j, stk));
      var b := Run(at + e.code[at].off, j, stk);
      FollowJumps(e, at + e.code[at].off, n - 1, j, stk);
      Chain(e, Run(at, j, stk), b, Run(FinalTarget(e.code, at, n), j, stk));
    }
  }

  lemma GrammarLayout(e: Env, pc: int) returns (e': Env)
    requires e.m.main && 0 < |e.m.g|
    requires Embedded(e, pc, GrammarCode(e.m.(main := false)))
    ensures e' == Env(e.m.(main := false), e.s, e.code, pc + 4) && RulesPlaced(e')
    ensures 0 <= pc < |e.code| && e.code[pc] == ICall(4)
    ensures 0 <= pc + 2 < |e.code| && e.code[pc + 2] == IJmp(|GrammarCode(e'.m)| - 2)
    ensures var body := Gen(e'.m, e'.m.g[0], false, NoTest, FULLSET);
            && Embedded(e', pc + 4, body)
            && 0 <= pc + 4 + |body| < |e.code| && e.code[pc + 4 + |body|] == IRet
  {
    hide Placed, Gen;
    var m := e.m.(main := false);
    var raw := RulesCode(m, |m.g|);
    var cc := CorrectCalls(m, raw);
    Split(e, pc, Emit(ICall(4)) + Emit(IJmp(2 + |raw|)), cc);
    Split(e, pc, Emit(ICall(4)), Emit(IJmp(2 + |raw|)));
    Head(e, pc, ICall(4));
    Head(e, pc + 2, IJmp(2 + |raw|));
    e' := Env(m, e.s, e.code, pc + 4);
    RulesInPlace(e, e');
    var body := Gen(m, m.g[0], false, NoTest, FULLSET);
    assert Embedded(e', pc + 4 + RuleStart(m, 0), RuleCode(m, 0)) by { assert m.g[0] == m.g[0]; }
    Split(e', pc + 4, body, Emit(IRet));
    Head(e', pc + 4 + |body|, IRet);
  }

  lemma GrammarCorrect(e: Env, opt: bool, tt: Test, fl: Charset, i: nat, n: nat, pc: int, stk: Stack)
    requires n > 0 && Ready(e) && Entry(e, opt, tt, fl, i, stk)
    requires e.m.main && 0 < |e.m.g|
    requires Embedded(e, pc, GrammarCode(e.m.(main := false)))
    ensures Realizes(e, Run(pc, i, stk), pc + |GrammarCode(e.m.(main := false))|, stk, opt, fl,
            Eval(e.m.g, TGrammar, e.s, i, n))
    decreases n, 0
  {
    hide Meet, Gen, GrammarCode, Embedded, RulesPlaced;
    var e' := GrammarLayout(e, pc);
    var g := e.m.g;
    var a := Run(pc, i, stk);
    var stk' := Call(pc + 2, stk);
    var b := Run(pc + 4, i, stk');
    OneStep(e, a);
    var r1 := Eval(g, g[0], e.s, i, n - 1);
    Correct(e', g[0], false, NoTest, FULLSET, i, n - 1, pc + 4, stk');
    if r1.Ok? {
      var at := pc + 4 + |Gen(e'.m, g[0], false, NoTest, FULLSET)|;
      var d := Run(at, r1.pos, stk');
      var f := Run(pc + 2, r1.pos, stk);
      Exact(e', b, at, stk', r1.pos);
      Chain(e, a, b, d);
      OneStep(e, d);
      Chain(e, a, d, f);
      OneStep(e, f);
      Chain(e, a, f, Run(pc + |GrammarCode(e'.m)|, r1.pos, stk));
    } else if r1.Fail? {
      Chain(e, a, b, Backtrack(stk));
    }
  }

  lemma RulesInPlace(e: Env, e': Env)
    requires e.m.main && e' == Env(e.m.(main := false), e.s, e.code, e'.base)
    requires Embedded(e, e'.base, CorrectCalls(e'.m, RulesCode(e'.m, |e'.m.g|)))
    ensures RulesPlaced(e')
  {
    var m := e'.m;
    var raw := RulesCode(m, |m.g|);
    forall k | 0 <= k < |raw| ensures Placed(e', e'.base + k, raw[k]) {
      SlotInPlace(e, e', raw, k);
    }
    assert Embedded(e', e'.base, raw);
    forall k | 0 <= k < |m.g| ensures Embedded(e', e'.base + RuleStart(m, k), RuleCode(m, k)) {
      hide Placed;
      RulePart(m, k, |m.g|);
      var rest :| raw == RulesCode(m, k) + RuleCode(m, k) + rest;
      Split(e', e'.base, RulesCode(m, k) + RuleCode(m, k), rest);
      Split(e', e'.base, RulesCode(m, k), RuleCode(m, k));
    }
  }

  lemma CorrectedAt(m: Mode, raw: Code, k: nat)
    requires !m.main && k < |raw|
    ensures |CorrectCalls(m, raw)| == |raw| && CorrectCalls(m, raw)[k] == CorrectCall(m, raw, k)
  {
  }

  lemma SlotInPlace(e: Env, e': Env, raw: Code, k: nat)
    requires e.m.main && e' == Env(e.m.(main := false), e.s, e.code, e'.base) && k < |raw|
    requires Embedded(e, e'.base, CorrectCalls(e'.m, raw))
    ensures Placed(e', e'.base + k, raw[k])
  {
    hide FinalTarget, LeadsToRet, RulesCode, RuleStart, CorrectCalls;
    CorrectedAt(e'.m, raw, k);
    assert Placed(e, e'.base + k, CorrectCalls(e'.m, raw)[k]);
    if raw[k].IOpenCall? && raw[k].rule < |e.m.g| && LeadsToRet(raw, k + 2) {
      LeadsInPlace(e, e', raw, k + 2);
    }
  }

  lemma LeadsInPlace(e: Env, e': Env, raw: Code, i: int)
    requires e.m.main && !e'.m.main && Embedded(e, e'.base, CorrectCalls(e'.m, raw))
    requires LeadsToRet(raw, i)
    ensures LeadsToRet(e.code, e'.base + i)
  {
    var n: nat :| var t := FinalTarget(raw, i, n); 0 <= t < |raw| && raw[t].IRet?;
    SameTarget(e, e'.base, e'.m, raw, i, n);
    assert 0 <= FinalTarget(e.code, e'.base + i, n) < |e.code|;
  }

  lemma {:induction false} RulePart(m: Mode, k: nat, n: nat)
    requires !m.main && k < n <= |m.g|
    ensures exists rest: Code :: RulesCode(m, n) == RulesCode(m, k) + RuleCode(m, k) + rest
    decreases n
  {
    if n == k + 1 {
      assert RulesCode(m, n) == RulesCode(m, k) + RuleCode(m, k) + [];
    } else {
      RulePart(m, k, n - 1);
      var rest :| RulesCode(m, n - 1) == RulesCode(m, k) + RuleCode(m, k) + rest;
      assert RulesCode(m, n) == RulesCode(m, k) + RuleCode(m, k) + (rest + RuleCode(m, n - 1));
    }
  }

  lemma {:induction false} SameTarget(e: Env, base: int, m: Mode, raw: Code, i: int, n: nat)
    requires e.m.main && !m.main && Embedded(e, base, CorrectCalls(m, raw))
    requires var t := FinalTarget(raw, i, n); 0 <= t < |raw| && raw[t].IRet?
    ensures var t := FinalTarget(e.code, base + i, n); 0 <= t < |e.code| && e.code[t].IRet?
    decreases n
  {
    var t := FinalTarget(raw, i, n);
    if 0 <= i < |raw| {
      assert Placed(e, base + i, CorrectCalls(m, raw)[i]);
      assert CorrectCalls(m, raw)[i] == CorrectCall(m, raw, i);
      if n > 0 && raw[i].IJmp? {
        SameTarget(e, base, m, raw, i + raw[i].off, n - 1);
        assert base + (i + raw[i].off) == (base + i) + raw[i].off;
      } 
    }
  }

  /** The code of `t`, wherever it is placed, realizes the outcome of `t`. */
  lemma {:induction false} Correct(e: Env, t: Tree, opt: bool, tt: Test, fl: Charset, i: nat, n: nat, pc: int,
      stk: Stack)
    requires Ready(e) && Entry(e, opt, tt, fl, i, stk)
    requires WellFormed(e.m.g, t, e.m.main) && LoopsSafe(e.m, t, opt, fl)
    requires Embedded(e, pc, Gen(e.m, t, opt, tt, fl))
    ensures Realizes(e, Run(pc, i, stk), pc + |Gen(e.m, t, opt, tt, fl)|, stk, opt, fl, Eval(e.m.g, t, e.s, i, n))
    decreases n, 3
  {
    hide Joins, First, HeadFail, FixedLen, Nofail;
    hide GenChoice, GenRep, GenNot, GenAnd, GrammarCode, Embedded, RulesPlaced, CodeChar, CodeCharset;
    if n > 0 {
      match t
      case TTrue => Same(e, Run(pc, i, stk));
      case TFalse => Head(e, pc, IFail); OneStep(e, Run(pc, i, stk));
      case TChoice(p1, p2) => ChoiceCorrect(e, p1, p2, opt, tt, fl, i, n, pc, stk);
      case TRep(p) => RepCorrect(e, p, opt, tt, fl, i, n, pc, stk);
      case TBehind(len, p) => BehindCorrect(e, len, p, opt, tt, fl, i, n, pc, stk);
      case TNot(p) => NotCorrect(e, p, opt, tt, fl, i, n, pc, stk);
      case TAnd(p) => AndCorrect(e, p, opt, tt, fl, i, n, pc, stk);
      case TSeq(p1, p2) => SeqCorrect(e, p1, p2, opt, tt, fl, i, n, pc, stk);
      case TCall(k) => CallCorrect(e, k, opt, tt, fl, i, n, pc, stk);
      case TGrammar => GrammarCorrect(e, opt, tt, fl, i, n, pc, stk);
      case _ => CharCorrect(e, t, opt, tt, fl, i, n, pc, stk);
    }
  }

  lemma PatternLayout(e: Env, t: Tree)
    requires e.code == PatternCode(e.m.g, t, e.m.asWritten) && e.m.main && e.base == 0
    ensures var c := Gen(e.m, t, false, NoTest, FULLSET);
            Embedded(e, 0, c) && |c| < |e.code| && e.code[|c|] == IEnd
  {
    hide Gen;
    assert e.m == Mode(e.m.g, true, e.m.asWritten);
    var c := Gen(e.m, t, false, NoTest, FULLSET);
    assert Embedded(e, 0, e.code);
    hide Embedded;
    Split(e, 0, c, Emit(IEnd));
    Head(e, |c|, IEnd);
  }

  /** From a fresh stack, the code of a pattern halts with exactly the outcome of the pattern. */
  lemma PatternCorrect(g: Grammar, t: Tree, asWritten: bool, s: Subject, i: nat, r: Outcome) returns (n: nat)
    requires i <= |s| && WellFormed(g, t, true) && WellFormedRules(g)
    requires LoopsSafe(Mode(g, true, asWritten), t, false, FULLSET) && RulesSafe(Mode(g, false, asWritten))
    requires Means(g, t, s, i, r)
    ensures Steps(PatternCode(g, t, asWritten), s, Start(i), n) == Halted(if r.Ok? then Some(r.pos) else None)
  {
    hide Gen, Embedded, Eval, WellFormed, LoopsSafe, Meet, Steps;
    var e := Env(Mode(g, true, asWritten), s, PatternCode(g, t, asWritten), 0);
    PatternLayout(e, t);
    var end := |Gen(e.m, t, false, NoTest, FULLSET)|;
    var stk := Choice(GIVEUP, i, Base);
    var fuel: nat :| Eval(g, t, s, i, fuel) == r;
    Correct(e, t, false, NoTest, FULLSET, i, fuel, 0, stk);
    var last := if r.Ok? then Run(end, r.pos, stk) else Run(GIVEUP, i, Base);
    if r.Ok? { Exact(e, Start(i), end, stk, r.pos); }
    OneStep(e, last);
    var out := if r.Ok? then Some(r.pos) else None;
    Chain(e, Start(i), last, Halted(out));
    n := MeetHalted(e.code, s, Start(i), out);
  }
}
