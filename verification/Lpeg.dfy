module Lpeg {
  /** Compiling and matching a pattern, from end to end. */

  import opened Peg
  import opened Analysis
  import opened Machine
  import opened CodeGen
  import opened CodeGenCorrect
  import opened Peephole
  import opened LiteralPass
  import opened LookBehind
  import opened Termination
  import opened FirstSets
  import opened Shape
  import opened Compiler
  import opened Matcher
  import opened FlatTree
  import opened TreeMeaning
  import opened FixAccepted

  /** What a match reports: where it ended, if it succeeded. */
  function Result(r: Outcome): Option<nat> { if r.Ok? then Some(r.pos) else None }

  /** The patterns that the compiler serves: accepted ones; compiled as written, those whose loops do
      not share an enclosing choice and on whose code the last pass stays on the instructions. */
  ghost predicate Compilable(g: Grammar, t: Tree, asWritten: bool, bigEndian: bool) {
    AcceptedPattern(g, t) && TextServes(g, t, asWritten, bigEndian)
  }

  ghost predicate TextServes(g: Grammar, t: Tree, asWritten: bool, bigEndian: bool) {
    && LoopsSafe(Mode(g, true, asWritten), t, false, FULLSET)
    && RulesSafe(Mode(g, false, asWritten))
    && (asWritten ==> PassSafe(PatternCode(g, t, true), bigEndian))
  }

  /** Without the `opt` of the loop body and with the jump revisited in the last pass, every accepted
      pattern can be compiled. */
  lemma RepairedIsCompilable(g: Grammar, t: Tree, bigEndian: bool)
    requires AcceptedPattern(g, t)
    ensures Compilable(g, t, false, bigEndian)
  {
    RepairedLoopsAreSafe(Mode(g, true, false), t, false, FULLSET);
    forall k | 0 <= k < |g| ensures LoopsSafe(Mode(g, false, false), g[k], false, FULLSET) {
      RepairedLoopsAreSafe(Mode(g, false, false), g[k], false, FULLSET);
    }
  }

  /** On every subject and from every position the code halts with what the pattern means. */
  ghost predicate Implements(code: Code, g: Grammar, t: Tree) {
    forall s: Subject, i: nat, r: Outcome | i <= |s| && Means(g, t, s, i, r) ::
      exists n: nat :: Steps(code, s, Start(i), n) == Halted(Result(r))
  }

  method Compile(g: Grammar, t: Tree, asWritten: bool, bigEndian: bool) returns (code: Code)
    requires Compilable(g, t, asWritten, bigEndian)
    ensures Implements(code, g, t)
    ensures ThreadedUpTo(code, |code|)
  {
    hide AcceptedPattern, NoJumpCycle, LabelsInside, LaidOut, Owned, SameResults, Implements, Gen, ThreadedUpTo, TestAt;
    hide PassSafe, CommitsAfterOneSlot, Optimized;
    RulesOf(g, t);
    var m := Mode(g, true, asWritten);
    var state := new CompileState();
    NoInstruction(state.code);
    state.EmitTree(m, t, false, NOINST, FULLSET);
    var _ := state.AddInstruction(IEnd);
    assert state.code == PatternCode(g, t, asWritten);
    ghost var b := PatternShape(g, t, asWritten);
    if asWritten {
      PassSafeAt(state.code, b, bigEndian);
      state.PeepholeAsWritten(b, bigEndian);
    } else {
      state.Peephole(b);
    }
    code := state.code;
    OptimizedImplements(g, t, asWritten, bigEndian, code);
  }

  lemma RulesOf(g: Grammar, t: Tree)
    requires AcceptedPattern(g, t)
    ensures WellFormed(g, t, true) && WellFormedRules(g)
  {
  }

  lemma OptimizedImplements(g: Grammar, t: Tree, asWritten: bool, bigEndian: bool, code: Code)
    requires Compilable(g, t, asWritten, bigEndian) && SameResults(PatternCode(g, t, asWritten), code)
    ensures Implements(code, g, t)
  {
    hide LoopsSafe, RulesSafe, PatternCode;
    RulesOf(g, t);
    forall s: Subject, i: nat, r: Outcome | i <= |s| && Means(g, t, s, i, r)
      ensures exists n: nat :: Steps(code, s, Start(i), n) == Halted(Result(r))
    {
      var n := PatternCorrect(g, t, asWritten, s, i, r);
    }
  }

  function Distance(a: int, b: int): nat { if a < b then b - a else a - b }

  /** The position asked for: counted from 1, or from the end when not positive. */
  function Wanted(ii: int, len: nat): int { if ii > 0 then ii - 1 else len + ii }

  /** Of the positions of a subject, `i` is the nearest to the wanted one. */
  predicate Nearest(i: nat, wanted: int, len: nat) {
    i <= len && forall j :: 0 <= j <= len ==> Distance(i, wanted) <= Distance(j, wanted)
  }

  /** The initial position, cropped to the subject. */
  function InitPosition(ii: int, len: nat): (i: nat)
    ensures Nearest(i, Wanted(ii, len), len)
    ensures forall j: nat :: Nearest(j, Wanted(ii, len), len) ==> j == i
  {
    var i := if ii > 0 then (if ii <= len then ii - 1 else len)
             else if -ii <= len then len + ii else 0;
    OneNearest(i, Wanted(ii, len), len);
    i
  }

  lemma OneNearest(i: nat, wanted: int, len: nat)
    requires i == if wanted < 0 then 0 else if wanted > len then len else wanted
    ensures Nearest(i, wanted, len) && forall j: nat :: Nearest(j, wanted, len) ==> j == i
  {
    forall j: nat | Nearest(j, wanted, len) ensures j == i {
      assert Distance(j, wanted) <= Distance(i, wanted);
    }
  }

  /** The patterns that can be compiled: accepted as they were built.  It is the right associative tree
      that is compiled, so that the conditions on the text are about that tree. */
  ghost predicate Preparable(g: Grammar, t: Tree, asWritten: bool, bigEndian: bool) {
    AcceptedPattern(g, t) && TextServes(FixAll(g), Fix(t), asWritten, bigEndian)
  }

  /** Those that can be matched: no rule may reach itself through a call inside a look-behind, as
      matching need not end otherwise. */
  ghost predicate Matchable(g: Grammar, t: Tree, asWritten: bool, bigEndian: bool) {
    Preparable(g, t, asWritten, bigEndian) && BehindSafe(g)
  }

  lemma PreparableIsCompilable(g: Grammar, t: Tree, asWritten: bool, bigEndian: bool)
    ensures Preparable(g, t, asWritten, bigEndian) <==> Compilable(FixAll(g), Fix(t), asWritten, bigEndian)
  {
    hide AcceptedPattern, TextServes, FixAll, Fix;
    AcceptedFixed(g, t);
  }

  /** With the two lines of the text repaired, every pattern accepted as it was built can be compiled,
      and matched if its look-behind is safe. */
  lemma AcceptedIsMatchable(g: Grammar, t: Tree, bigEndian: bool)
    requires AcceptedPattern(g, t)
    ensures Preparable(g, t, false, bigEndian) && (BehindSafe(g) ==> Matchable(g, t, false, bigEndian))
  {
    hide AcceptedPattern, TextServes, FixAll, Fix, BehindSafe;
    AcceptedFixed(g, t);
    RepairedIsCompilable(FixAll(g), Fix(t), bigEndian);
  }

  /** The tree is made right associative before it is compiled; the code does what the tree meant
      as it was built. */
  method PrepCompile(g: Grammar, t: Tree, asWritten: bool, bigEndian: bool) returns (code: Code)
    requires Preparable(g, t, asWritten, bigEndian)
    ensures Implements(code, g, t)
  {
    hide Preparable, Compilable, FixAll, Fix, Means, Implements;
    PreparableIsCompilable(g, t, asWritten, bigEndian);
    code := Compile(FixAll(g), Fix(t), asWritten, bigEndian);
    BuiltMeaning(code, g, t);
  }

  lemma BuiltMeaning(code: Code, g: Grammar, t: Tree)
    requires Implements(code, FixAll(g), Fix(t))
    ensures Implements(code, g, t)
  {
    hide FixAll, Fix, Means, Steps;
    forall s: Subject, i: nat, r: Outcome | i <= |s| && Means(g, t, s, i, r)
      ensures exists n: nat :: Steps(code, s, Start(i), n) == Halted(Result(r))
    {
      FixKeepsMeaning(g, t, s, i, r);
      assert Means(FixAll(g), Fix(t), s, i, r);
    }
  }

  /** Matching reports exactly what the pattern means at the position nearest to the one asked for. */
  method LpMatch(g: Grammar, t: Tree, asWritten: bool, bigEndian: bool, s: Subject, ii: int)
      returns (r: Option<nat>)
    requires Matchable(g, t, asWritten, bigEndian)
    ensures exists i: nat, out: Outcome ::
              Nearest(i, Wanted(ii, |s|), |s|) && Means(g, t, s, i, out) && r == Result(out)
  {
    hide AcceptedPattern, TextServes, FixAll, Fix, BehindSafe;
    var code := PrepCompile(g, t, asWritten, bigEndian);
    var i := InitPosition(ii, |s|);
    ghost var out := MeaningExists(g, t, s, i);
    ghost var n :| Steps(code, s, Start(i), n) == Halted(Result(out));
    r := Match(code, s, i, n);
  }

  lemma MeaningExists(g: Grammar, t: Tree, s: Subject, i: nat) returns (r: Outcome)
    requires i <= |s| && AcceptedPattern(g, t) && BehindSafe(g)
    ensures Means(g, t, s, i, r)
  {
    PatternEnds(g, t, s, i);
    r := EndMeans(g, t, s, i);
  }

  /** Every first-set analysis that the compiler asks for returns. */
  lemma FirstSetsReturn(g: Grammar, u: Tree, main: bool, fl: Charset)
    requires Accepted(g) && BehindSafe(g) && |g| <= MAXRULES && WellFormed(FixAll(g), u, main)
    ensures Getfirst(FixAll(g), u, fl, DEPTH) == Some(First(FixAll(g), u, fl, DEPTH))
  {
    hide Accepted, BehindSafe, FixAll, Getfirst, First;
    SameRules(g);
    GrammarAcceptedFixed(g);
    BehindSafeFixed(g);
    SafeHasNoRoundWalk(FixAll(g));
    GetfirstIsFirst(FixAll(g), u, main, fl);
  }

  lemma EndMeans(g: Grammar, t: Tree, s: Subject, i: nat) returns (r: Outcome)
    requires i <= |s| && Ends(g, t, s, i)
    ensures Means(g, t, s, i, r)
  {
    var n: nat :| !Eval(g, t, s, i, n).OutOfFuel?;
    r := Eval(g, t, s, i, n);
  }

  /** Where matching ends, no assertion of the machine fails in any state reached by the code: a return finds a call
      on top of the stack, a commit finds a choice, a failure finds a choice below the calls, and
      the end finds only the base entry. */
  lemma StackDiscipline(g: Grammar, t: Tree, code: Code, s: Subject, i: nat, k: nat)
    requires i <= |s| && Ends(g, t, s, i) && Implements(code, g, t)
    ensures var st := Steps(code, s, Start(i), k);
            !st.Stuck?
            && (st.Run? && st.pc == GIVEUP ==> st.stk == Base)
            && (st.Run? && st.pc != GIVEUP ==>
                  && 0 <= st.pc < |code|
                  && (code[st.pc].IRet? ==> st.stk.Call?)
                  && (Commits(code[st.pc]) || code[st.pc].IFailTwice? ==> st.stk.Choice?)
                  && (code[st.pc].IFail? ==> Backtrack(st.stk).Run?)
                  && (code[st.pc].IEnd? ==> st.stk.Choice? && st.stk.below == Base))
  {
    var out := EndMeans(g, t, s, i);
    var n: nat :| Steps(code, s, Start(i), n) == Halted(Result(out));
    NeverStuck(code, s, Start(i), n, k);
    NeverStuck(code, s, Start(i), n, k + 1);
    StepsAdd(code, s, Start(i), k, 1);
    var st := Steps(code, s, Start(i), k);
    assert Steps(code, s, st, 1) == Steps(code, s, Step(code, s, st), 0);
    if st.Run? && 0 <= st.pc < |code| && code[st.pc].IFail? { BacktrackRuns(st.stk); }
  }

  lemma BacktrackRuns(stk: Stack)
    ensures Backtrack(stk).Run? || Backtrack(stk).Stuck?
  {
  }
}
