/**
 The compiler itself: it appends instructions to a growing code array, comes back to fill in the
 offsets of jumps, and finally walks over the code to close calls and to thread jumps.  Each method
 is shown to leave exactly the code that `CodeGen` assigns to its tree.
 */
module Compiler {
  import opened Peg
  import opened Analysis
  import opened Machine
  import opened CodeGen
  import opened Peephole
  import opened LiteralPass
  import opened Shape

  /** "No instruction": a test or jump that was not emitted. */
  const NOINST := -1

  /** Instruction `ins` with its offset word set. */
  function WithOffset(ins: Instr, off: int): Instr
    requires HasLabel(ins) || ins.IJmp?
  {
    if ins.IJmp? then IJmp(off) else Retarget(ins, off)
  }

  predicate CanPatch(code: Code, i: int) {
    i < 0 || (i < |code| && (HasLabel(code[i]) || code[i].IJmp?))
  }

  /** The code once the instruction at `i`, if there is one, jumps to `target`. */
  function Patched(code: Code, i: int, target: int): (c: Code)
    requires CanPatch(code, i)
    ensures |c| == |code|
  {
    if i < 0 then code else code[i := WithOffset(code[i], target - i)]
  }

  /** What the instruction at `tt` tells about the code it protects. */
  function TestAt(code: Code, tt: int): Test
    requires tt < |code|
  {
    if tt < 0 then NoTest else
    match code[tt]
    case ITestChar(c, _) => CharTest(c)
    case ITestSet(cs, _) => SetTest(cs)
    case _ => OtherTest
  }

  class CompileState {
    var code: Code

    constructor ()
      ensures code == []
    {
      code := [];
    }

    // ----- instructions

    method AddInstruction(ins: Instr) returns (i: nat)
      modifies this
      ensures i == |old(code)| && code == old(code) + Emit(ins)
    {
      i := |code|;
      code := code + [ins];
      var size := Size(ins);
      for k := 1 to size
        invariant code == old(code) + [ins] + Pads(k - 1)
      {
        code := code + [Pad];
      }
    }

    method JumpToThere(instruction: int, target: int)
      requires CanPatch(code, instruction)
      modifies this
      ensures code == Patched(old(code), instruction, target)
    {
      if instruction >= 0 {
        code := code[instruction := WithOffset(code[instruction], target - instruction)];
      }
    }

    method JumpToHere(instruction: int)
      requires CanPatch(code, instruction)
      modifies this
      ensures code == Patched(old(code), instruction, |old(code)|)
    {
      JumpToThere(instruction, |code|);
    }

    method EmitChar(c: Byte, tt: int)
      requires tt < |code|
      modifies this
      ensures code == old(code) + CodeChar(c, TestAt(old(code), tt))
    {
      if tt >= 0 && code[tt].ITestChar? && code[tt].c == c {
        var _ := AddInstruction(IAny);
      } else {
        var _ := AddInstruction(IChar(c));
      }
    }

    method EmitCharset(cs: Charset, tt: int)
      requires tt < |code|
      modifies this
      ensures code == old(code) + CodeCharset(cs, TestAt(old(code), tt))
    {
      match CharsetType(cs) {
        case Single(c) => EmitChar(c, tt);
        case Other =>
          if tt >= 0 && code[tt].ITestSet? && code[tt].cs == cs {
            var _ := AddInstruction(IAny);
          } else {
            var _ := AddInstruction(ISet(cs));
          }
        case EmptySet => var _ := AddInstruction(IFail);
        case Full => var _ := AddInstruction(IAny);
      }
    }

    /** The offset of the test is filled in later. */
    method EmitTest(cs: Charset, e: bool) returns (test: int)
      modifies this
      ensures code == old(code) + CodeTest(cs, e, 0)
      ensures test == if e then NOINST else |old(code)|
      ensures test < |code| && TestAt(code, test) == TestOf(cs, e)
    {
      if e { return NOINST; }
      match CharsetType(cs) {
        case EmptySet => test := AddInstruction(IJmp(0));
        case Full => test := AddInstruction(ITestAny(0));
        case Single(c) => test := AddInstruction(ITestChar(c, 0));
        case Other => test := AddInstruction(ITestSet(cs, 0));
      }
    }

    // ----- trees

    method EmitTree(m: Mode, t: Tree, opt: bool, tt: int, fl: Charset)
      requires WellFormedRules(m.g) && tt < |code|
      modifies this
      ensures code == old(code) + Gen(m, t, opt, TestAt(old(code), tt), fl)
      decreases Level(m), t, 1
    {
      hide WellFormedRules, First, HeadFail, FixedLen, GenChoice, GenRep, GenNot, GenAnd, GrammarCode, CodeChar,
          CodeCharset, BehindCode, Emit, TestAt;
      NoInstruction(code);
      match t {
        case TChar(c) => EmitChar(c, tt);
        case TAny => var _ := AddInstruction(IAny);
        case TSet(cs) => EmitCharset(cs, tt);
        case TTrue =>
        case TFalse => var _ := AddInstruction(IFail);
        case TChoice(p1, p2) => EmitChoice(m, p1, p2, opt, fl);
        case TRep(p) => EmitRep(m, p, opt, fl);
        case TBehind(n, p) => EmitBehind(m, n, p);
        case TNot(p) => EmitNot(m, p);
        case TAnd(p) => EmitAnd(m, p, tt);
        case TSeq(p1, p2) =>
          var fl1 := if NeedFollow(p1) then First(m.g, p2, fl, DEPTH).cs else FULLSET;
          EmitTree(m, p1, false, tt, fl1);
          KeepsTest(old(code), code, tt);
          NoInstruction(code);
          EmitTree(m, p2, opt, if FixedLen(m.g, p1) != 0 then NOINST else tt, fl);
        case TCall(k) => var _ := AddInstruction(IOpenCall(k));
        case TGrammar => if m.main { EmitGrammar(m.(main := false)); }
      }
    }

    method EmitBehind(m: Mode, n: nat, p: Tree)
      requires WellFormedRules(m.g)
      modifies this
      ensures code == old(code) + (BehindCode(n) + Gen(m, p, false, NoTest, FULLSET))
      decreases Level(m), TBehind(n, p), 0
    {
      hide Gen, Emit, TestAt, WellFormedRules;
      ghost var start := code;
      if n > 0 { var _ := AddInstruction(IBehind(n)); }
      assert code == start + BehindCode(n);
      NoInstruction(code);
      EmitTree(m, p, false, NOINST, FULLSET);
      assert code == start + (BehindCode(n) + Gen(m, p, false, NoTest, FULLSET));
    }

    method EmitChoice(m: Mode, p1: Tree, p2: Tree, opt: bool, fl: Charset)
      requires WellFormedRules(m.g)
      modifies this
      ensures code == old(code) + GenChoice(m, p1, p2, opt, fl)
      decreases Level(m), TChoice(p1, p2), 0, 1
    {
      hide First, HeadFail, Gen, WellFormedRules, Emit, CanPatch, Patched, GenChoice;
      var f1 := First(m.g, p1, FULLSET, DEPTH);
      if HeadFail(m.g, p1, DEPTH) || (!f1.e && f1.cs !! First(m.g, p2, fl, DEPTH).cs) {
        EmitTestedChoice(m, p1, p2, opt, fl, f1.cs);
      } else if opt && p2.TTrue? {
        SharedChoiceSteps(code, Gen(m, p1, true, NoTest, FULLSET));
        SharedChoiceCode(m, p1, fl);
        var pcommit := AddInstruction(IPartialCommit(0));
        JumpToHere(pcommit);
        EmitTree(m, p1, true, NOINST, FULLSET);
      } else {
        EmitPlainChoice(m, p1, p2, opt, fl, f1);
      }
    }

    /** The test sends every character that `p1` cannot begin with straight to `p2`, so nothing is pushed. */
    method EmitTestedChoice(m: Mode, p1: Tree, p2: Tree, opt: bool, fl: Charset, cs1: Charset)
      requires WellFormedRules(m.g)
      requires TestedChoice(m, p1, p2, fl) && cs1 == First(m.g, p1, FULLSET, DEPTH).cs
      modifies this
      ensures code == old(code) + GenChoice(m, p1, p2, opt, fl)
      decreases Level(m), TChoice(p1, p2), 0, 0
    {
      hide First, HeadFail, Gen, WellFormedRules, Emit, CodeTest, TestOf, TestSize, CanPatch, Patched, TestedChoice,
          TestAt, GenChoice, Level;
      NoInstruction(code);
      TestedChoiceCode(m, p1, p2, opt, fl);
      TestedChoiceSteps(code, cs1, Gen(m, p1, false, TestOf(cs1, false), fl), Gen(m, p2, opt, NoTest, fl));
      var test := EmitTest(cs1, false);
      var jmp := NOINST;
      EmitTree(m, p1, false, test, fl);
      if !p2.TTrue? { jmp := AddInstruction(IJmp(0)); }
      JumpToHere(test);
      NoInstruction(code);
      EmitTree(m, p2, opt, NOINST, fl);
      NothingToPatch(code);
      JumpToHere(jmp);
    }

    /** A choice is pushed behind the test: both a failed test and a failure of `p1` resume at `p2`. */
    method EmitPlainChoice(m: Mode, p1: Tree, p2: Tree, opt: bool, fl: Charset, f1: FirstSet)
      requires WellFormedRules(m.g) && f1 == First(m.g, p1, FULLSET, DEPTH)
      requires !TestedChoice(m, p1, p2, fl) && !(opt && p2.TTrue?)
      modifies this
      ensures code == old(code) + GenChoice(m, p1, p2, opt, fl)
      decreases Level(m), TChoice(p1, p2), 0, 0, 1
    {
      hide First, HeadFail, Gen, WellFormedRules, Emit, CodeTest, TestOf, TestSize, CanPatch, Patched, TestedChoice,
          TestAt, GenChoice;
      ghost var start := code;
      ghost var c1 := Gen(m, p1, p2.TTrue?, TestOf(f1.cs, f1.e), FULLSET);
      ghost var c2 := Gen(m, p2, opt, NoTest, fl);
      PlainChoiceCode(m, p1, p2, opt, fl);
      var pcommit := EmitFirstChoice(m, p1, p2.TTrue?, f1);
      NoInstruction(code);
      EmitTree(m, p2, opt, NOINST, fl);
      PlainChoiceLastStep(start, CodeTest(f1.cs, f1.e, TestSize(f1.cs, f1.e) + 4 + |c1|), Emit(IChoice(4 + |c1|)),
          c1, c2);
      JumpToHere(pcommit);
    }

    /** The part in front of the second alternative, whose length is not known to the commit yet. */
    method EmitFirstChoice(m: Mode, p1: Tree, opt1: bool, f1: FirstSet) returns (pcommit: nat)
      requires WellFormedRules(m.g)
      modifies this
      ensures var c1 := Gen(m, p1, opt1, TestOf(f1.cs, f1.e), FULLSET);
              var head := old(code) + CodeTest(f1.cs, f1.e, TestSize(f1.cs, f1.e) + 4 + |c1|);
              && code == head + (Emit(IChoice(4 + |c1|)) + c1 + Emit(ICommit(0)))
              && pcommit == |head + Emit(IChoice(4 + |c1|)) + c1|
      decreases Level(m), p1, 2
    {
      hide First, HeadFail, Gen, WellFormedRules, Emit, CodeTest, TestOf, TestSize, CanPatch, Patched, TestAt;
      PlainChoiceSteps(code, f1, Gen(m, p1, opt1, TestOf(f1.cs, f1.e), FULLSET));
      var test := EmitTest(f1.cs, f1.e);
      ghost var tested := code;
      var pchoice := AddInstruction(IChoice(0));
      KeepsTest(tested, code, test);
      EmitTree(m, p1, opt1, test, FULLSET);
      pcommit := AddInstruction(ICommit(0));
      JumpToHere(pchoice);
      JumpToHere(test);
    }

    method EmitRep(m: Mode, p: Tree, opt: bool, fl: Charset)
      requires WellFormedRules(m.g)
      modifies this
      ensures code == old(code) + GenRep(m, p, opt, fl)
      decreases Level(m), TRep(p), 0, 1
    {
      hide First, HeadFail, Gen, WellFormedRules, Emit, CodeTest, TestOf, TestSize;
      match ToCharset(p) {
        case Some(cs) => var _ := AddInstruction(ISpan(cs));
        case None =>
          var f := First(m.g, p, FULLSET, DEPTH);
          if HeadFail(m.g, p, DEPTH) || (!f.e && f.cs !! fl) {
            EmitTestedLoop(m, p, opt, fl, f.cs);
          } else {
            EmitPlainLoop(m, p, opt, fl, f);
          }
      }
    }

    /** The body between a test that leaves the loop and a jump back to that test. */
    method EmitTestedLoop(m: Mode, p: Tree, opt: bool, fl: Charset, cs: Charset)
      requires WellFormedRules(m.g) && ToCharset(p).None?
      requires TestedLoop(m, p, fl) && cs == First(m.g, p, FULLSET, DEPTH).cs
      modifies this
      ensures code == old(code) + GenRep(m, p, opt, fl)
      decreases Level(m), TRep(p), 0, 0
    {
      hide First, HeadFail, Gen, WellFormedRules, Emit, CodeTest, TestOf, TestSize, CanPatch, Patched, TestedLoop,
          TestAt;
      // the body gets `opt` in the C text; see `Mode`
      TestedLoopSteps(code, cs, Gen(m, p, m.asWritten && opt, TestOf(cs, false), FULLSET));
      var test := EmitTest(cs, false);
      EmitTree(m, p, m.asWritten && opt, test, FULLSET);
      var jmp := AddInstruction(IJmp(0));
      JumpToHere(test);
      JumpToThere(jmp, test);
    }

    /** The body keeps one choice up to date and repeats; a failure of the body leaves the loop.  Under
        `opt` the choice is the enclosing one. */
    method EmitPlainLoop(m: Mode, p: Tree, opt: bool, fl: Charset, f: FirstSet)
      requires WellFormedRules(m.g) && ToCharset(p).None?
      requires !TestedLoop(m, p, fl) && f == First(m.g, p, FULLSET, DEPTH)
      modifies this
      ensures code == old(code) + GenRep(m, p, opt, fl)
      decreases Level(m), TRep(p), 0, 0
    {
      hide First, HeadFail, Gen, WellFormedRules, Emit, CodeTest, TestOf, TestSize, CanPatch, Patched, TestedLoop,
          TestAt, GenRep, ToCharset, Level;
      PlainLoopCode(m, p, opt, fl);
      LoopOpenStep(code, f, opt, Gen(m, p, false, NoTest, FULLSET));
      var test := EmitTest(f.cs, f.e);
      var pchoice := EmitLoopBody(m, p, opt);
      JumpToHere(pchoice);
      JumpToHere(test);
    }

    /** The body between its choice, which is filled in later, and the jump back to it. */
    method EmitLoopBody(m: Mode, p: Tree, opt: bool) returns (pchoice: int)
      requires WellFormedRules(m.g)
      modifies this
      ensures var c := Gen(m, p, false, NoTest, FULLSET);
              var open := if opt then Emit(IPartialCommit(2)) else Emit(IChoice(0));
              code == old(code) + open + c + Emit(IPartialCommit(-|c|))
      ensures pchoice == if opt then NOINST else |old(code)|
      decreases Level(m), p, 2
    {
      hide Gen, WellFormedRules, Emit, CanPatch, Patched, TestAt, Level;
      pchoice := EmitOpen(opt);
      ghost var start := code;
      var l2 := |code|;
      NoInstruction(code);
      EmitTree(m, p, false, NOINST, FULLSET);
      var commit := AddInstruction(IPartialCommit(0));
      LoopBackStep(start, Gen(m, p, false, NoTest, FULLSET));
      JumpToThere(commit, l2);
    }

    /** Pushes the choice of a loop, to be filled in later; under `opt` updates the enclosing one. */
    method EmitOpen(opt: bool) returns (pchoice: int)
      modifies this
      ensures code == old(code) + if opt then Emit(IPartialCommit(2)) else Emit(IChoice(0))
      ensures pchoice == if opt then NOINST else |old(code)|
    {
      hide Emit, CanPatch, Patched;
      OpenStep(code);
      pchoice := NOINST;
      if opt {
        var pcommit := AddInstruction(IPartialCommit(0));
        JumpToHere(pcommit);
      } else {
        pchoice := AddInstruction(IChoice(0));
      }
    }

    method EmitNot(m: Mode, p: Tree)
      requires WellFormedRules(m.g)
      modifies this
      ensures code == old(code) + GenNot(m, p)
      decreases Level(m), TNot(p), 0
    {
      hide First, HeadFail, Gen, GenNot, WellFormedRules, Emit, CodeTest, TestOf, TestSize, CanPatch, Patched, TestAt;
      var f := First(m.g, p, FULLSET, DEPTH);
      NotCode(m, p);
      NotSteps(code, f, Gen(m, p, false, NoTest, FULLSET));
      var test := EmitTest(f.cs, f.e);
      if HeadFail(m.g, p, DEPTH) {
        var _ := AddInstruction(IFail);
      } else {
        EmitNegated(m, p);
      }
      JumpToHere(test);
    }

    /** The pattern under a choice of its own: its success drops that choice and fails. */
    method EmitNegated(m: Mode, p: Tree)
      requires WellFormedRules(m.g)
      modifies this
      ensures var c := Gen(m, p, false, NoTest, FULLSET);
              var a := old(code) + Emit(IChoice(0)) + c + Emit(IFailTwice);
              CanPatch(a, |old(code)|) && code == Patched(a, |old(code)|, |a|)
      decreases Level(m), p, 2
    {
      hide Gen, WellFormedRules, TestAt;
      ghost var start := code;
      var pchoice := AddInstruction(IChoice(0));
      NoInstruction(code);
      EmitTree(m, p, false, NOINST, FULLSET);
      var _ := AddInstruction(IFailTwice);
      assert code[|start|] == IChoice(0);
      JumpToHere(pchoice);
    }

    method EmitAnd(m: Mode, p: Tree, tt: int)
      requires WellFormedRules(m.g) && tt < |code|
      modifies this
      ensures code == old(code) + GenAnd(m, p, TestAt(old(code), tt))
      decreases Level(m), TAnd(p), 0
    {
      hide FixedLen, Gen, WellFormedRules, Emit, CanPatch, Patched, TestAt;
      var n := FixedLen(m.g, p);
      AndSteps(code, Gen(m, p, false, TestAt(code, tt), FULLSET), n);
      if 0 <= n <= MAXBEHIND {
        EmitTree(m, p, false, tt, FULLSET);
        if n > 0 { var _ := AddInstruction(IBehind(n)); }
      } else {
        ghost var start := code;
        var pchoice := AddInstruction(IChoice(0));
        KeepsTest(start, code, tt);
        EmitTree(m, p, false, tt, FULLSET);
        var pcommit := AddInstruction(IBackCommit(0));
        JumpToHere(pchoice);
        var _ := AddInstruction(IFail);
        JumpToHere(pcommit);
      }
    }

    /** Calls the first rule and jumps over all rules, each of which ends with a return. */
    method EmitGrammar(m: Mode)
      requires !m.main && WellFormedRules(m.g)
      modifies this
      ensures code == old(code) + GrammarCode(m)
      decreases 1, TGrammar, 1
    {
      hide Gen, Emit, CanPatch, Patched, WellFormedRules, CorrectCalls, TestAt, RulesCode;
      ghost var base := code;
      ghost var raw := RulesCode(m, |m.g|);
      var firstcall := AddInstruction(ICall(0));
      var jumptoend := AddInstruction(IJmp(0));
      var start := |code|;
      GrammarSteps(base, raw);
      JumpToHere(firstcall);
      var positions := EmitRules(m);
      JumpToHere(jumptoend);
      GrammarSlices(base, raw, CorrectCalls(m, raw));
      CorrectCallsIn(m, positions, start, |code|);
    }

    /** The rules, each ended by a return, and where each starts. */
    method EmitRules(m: Mode) returns (positions: seq<nat>)
      requires !m.main && WellFormedRules(m.g)
      modifies this
      ensures code == old(code) + RulesCode(m, |m.g|)
      ensures |positions| == |m.g| && forall j :: 0 <= j < |m.g| ==> positions[j] == |old(code)| + RuleStart(m, j)
      decreases 1, TGrammar, 0
    {
      hide Gen, Emit, WellFormedRules, TestAt;
      ghost var start := code;
      positions := [];
      for k := 0 to |m.g|
        invariant code == start + RulesCode(m, k)
        invariant |positions| == k && forall j :: 0 <= j < k ==> positions[j] == |start| + RuleStart(m, j)
      {
        positions := positions + [|code|];
        NoInstruction(code);
        EmitTree(m, m.g[k], false, NOINST, FULLSET);
        var _ := AddInstruction(IRet);
        RuleAppended(start, m, k);
      }
    }

    /** Turns open calls into calls of their rules, or into jumps where only jumps lead from the
        call to a return. */
    method CorrectCallsIn(m: Mode, positions: seq<nat>, from: nat, to: nat)
      requires !m.main && WellFormedRules(m.g) && from <= to == |code|
      requires code[from..] == RulesCode(m, |m.g|)
      requires |positions| == |m.g| && forall j :: 0 <= j < |m.g| ==> positions[j] == from + RuleStart(m, j)
      modifies this
      ensures code == old(code)[..from] + CorrectCalls(m, RulesCode(m, |m.g|))
    {
      hide FinalTarget, LeadsToRet, RulesCode, RuleStart, Corrected, CorrectCalls;
      ghost var raw := RulesCode(m, |m.g|);
      ghost var before := code[..from];
      RulesNeat(m);
      var i := from;
      NotYetCorrected(m, code, from);
      while i < to
        invariant from <= i <= to == |code|
        invariant code[..from] == before
        invariant |code| == from + |raw| && Corrected(m, raw, code, from, i - from)
      {
        ghost var at, was := i - from, code;
        OthersStay(m, raw, code, from, at);
        assert code[from + at] == raw[at];
        if code[i].IOpenCall? {
          CalledRule(m, at);
          var rule := positions[code[i].rule];
          ghost var n := AheadOfCall(m, raw, code, from, at);
          var t := FinalTargetOf(i + 2, n);
          code := code[i := if code[t].IRet? then IJmp(rule - i) else ICall(rule - i)];
        }
        SkippedSlots(m, raw, at);
        CorrectedStep(m, raw, was, code, from, at);
        i := i + Size(code[i]);
      }
      AllCorrected(m, raw, code, from);
    }

    // ----- the last pass

    /** Threads labels through jumps and replaces jumps by the instructions they lead to.  A jump that
        became a commit is visited again, as the comment of the C text asks, though its label is final. */
    method Peephole(ghost b: nat)
      requires Whole(code, b)
      modifies this
      ensures code == Optimized(old(code), 0, b)
      ensures SameResults(old(code), code) && ThreadedUpTo(code, |code|)
    {
      hide NoJumpCycle, LabelsInside, Rewrite, SameResults, ThreadedUpTo, LaidOut, Owned, FinalTarget;
      var i := 0;
      PassStarts(code, b);
      while i < |code|
        invariant 0 <= i <= |code| == |old(code)| && Whole(code, b) && (i < |code| ==> !code[i].Pad?)
        invariant Optimized(code, i, b) == Optimized(old(code), 0, b)
        decreases |code| - i, if i < |code| && code[i].IJmp? then 1 else 0
      {
        var size := Size(code[i]);
        WholeStep(code, i, b);
        JumpHasPad(code, i);
        VisitAgain(code, i, b);
        var became := OptimizeAt(i, b);
        if !became { i := i + size; }
      }
    }

    /** The same pass as the C text has it: after a jump became a commit it steps back by one slot and on
        by the size of the word that it finds there. */
    method PeepholeAsWritten(ghost b: nat, bigEndian: bool)
      requires Whole(code, b) && CommitsAfterOneSlot(code, b, bigEndian)
      modifies this
      ensures code == Optimized(old(code), 0, b)
      ensures SameResults(old(code), code) && ThreadedUpTo(code, |code|)
    {
      hide NoJumpCycle, LabelsInside, Rewrite, SameResults, ThreadedUpTo, LaidOut, Owned, FinalTarget, FirstByte;
      hide LiteralWalk, CommitsAfterOneSlot;
      var i := 0;
      PassStarts(code, b);
      LiteralPassVisits(code, b, bigEndian);
      LiteralPassLeaves(code, b, bigEndian);
      while i < |code|
        invariant 0 <= i <= |code| == |old(code)| && Whole(code, b) && OnInstructions(code, i, b, bigEndian)
        invariant LiteralWalk(code, i, b, bigEndian).0 == Optimized(old(code), 0, b)
        decreases |code| - i, if i < |code| && code[i].IJmp? then 1 else 0
      {
        ghost var before := code;
        WalkStep(code, i, b, bigEndian);
        JumpHasPad(code, i);
        RewriteWhole(code, i, b);
        var became := OptimizeAt(i, b);
        if became { i := i - 1; }
        HeadByte(code, i, bigEndian);
        i := i + SizeOfByte(FirstByte(code, i, bigEndian));
      }
      WalkEnds(code, b, bigEndian);
    }

    /** `became`: a jump became a commit. */
    method OptimizeAt(i: nat, ghost b: nat) returns (became: bool)
      requires i < |code| && NoJumpCycle(code, b) && LabelsInside(code)
      requires code[i].IJmp? ==> i + 1 < |code| && code[i + 1].Pad?
      modifies this
      ensures code == Rewrite(old(code), i, b) && became == Becomes(old(code), i, b)
    {
      hide FinalTarget, NoJumpCycle;
      became := false;
      if HasLabel(code[i]) {
        JumpsStayInside(code, i + code[i].off, b);
        AtBound(code, i + code[i].off, b);
        var t := FinalTargetOf(i + code[i].off, b);
        JumpToThere(i, t);
      } else if code[i].IJmp? {
        JumpsStayInside(code, i, b);
        AtBound(code, i, b);
        var ft := FinalTargetOf(i, b);
        if Leaves(code[ft]) {
          code := code[i := code[ft]];
          code := code[i + 1 := IAny];
        } else if Commits(code[ft]) {
          JumpsStayInside(code, ft + code[ft].off, b);
          AtBound(code, ft + code[ft].off, b);
          var fft := FinalTargetOf(ft + code[ft].off, b);
          code := code[i := code[ft]];
          JumpToThere(i, fft);
          became := true;
        } else {
          JumpToThere(i, ft);
        }
      }
    }

    /** Where the jumps from `i` lead; `n` is how many there are at most. */
    method FinalTargetOf(i: int, ghost n: nat) returns (t: int)
      requires Settled(code, FinalTarget(code, i, n))
      requires JumpsStay(code, i, n)
      ensures t == FinalTarget(code, i, n)
    {
      t := i;
      ghost var k := 0;
      TargetAdd(code, i, 0, n);
      while code[t].IJmp?
        invariant 0 <= k <= n && t == FinalTarget(code, i, k) && 0 <= t < |code|
        decreases n - k
      {
        TargetAdd(code, i, k, 1);
        JumpOne(code, t);
        t := t + code[t].off;
        k := k + 1;
      }
      SettledStays(code, i, k, n);
    }
  }

  lemma PassStarts(code: Code, b: nat)
    requires Whole(code, b)
    ensures code != [] ==> !code[0].Pad?
    ensures SameResults(code, Optimized(code, 0, b)) && ThreadedUpTo(Optimized(code, 0, b), |code|)
  {
    hide NoJumpCycle, LabelsInside, LaidOut, Owned, SameResults, ThreadedUpTo, Optimized;
    FirstInstruction(code);
    NoneThreaded(code);
    OptimizedWorks(code, 0, b);
  }

  /** All that the literal pass visits from slot `i` on is an instruction. */
  ghost predicate OnInstructions(code: Code, i: int, b: nat, bigEndian: bool) {
    var (left, visited) := LiteralWalk(code, i, b, bigEndian);
    forall k :: k in visited ==> Instruction(left, 0, k)
  }

  lemma WalkStep(code: Code, i: nat, b: nat, bigEndian: bool)
    requires i < |code| && OnInstructions(code, i, b, bigEndian)
    ensures !code[i].Pad?
    ensures var after := Rewrite(code, i, b);
            var next := NextSlot(code, after, i, b, bigEndian);
            && i <= next <= |code| && OnInstructions(after, next, b, bigEndian)
            && LiteralWalk(after, next, b, bigEndian).0 == LiteralWalk(code, i, b, bigEndian).0
            && (next == i ==> code[i].IJmp? && !after[i].IJmp?)
  {
    hide Rewrite, FirstByte, SizeOfByte;
    var after := Rewrite(code, i, b);
    var next := NextSlot(code, after, i, b, bigEndian);
    assert i in LiteralWalk(code, i, b, bigEndian).1;
    assert next in LiteralWalk(code, i, b, bigEndian).1 by { FirstVisit(after, next, b, bigEndian); }
  }

  lemma FirstVisit(code: Code, i: int, b: nat, bigEndian: bool)
    ensures i in LiteralWalk(code, i, b, bigEndian).1
  {
  }

  lemma WalkEnds(code: Code, b: nat, bigEndian: bool)
    ensures LiteralWalk(code, |code|, b, bigEndian).0 == code
  {
  }

  /** The first byte of an instruction tells its size. */
  lemma HeadByte(code: Code, i: nat, bigEndian: bool)
    requires i < |code|
    ensures !code[i].Pad? ==> SizeOfByte(FirstByte(code, i, bigEndian)) == Size(code[i])
  {
    OpcodeSize(code[i]);
  }

  lemma JumpsStayInside(code: Code, i: int, n: nat)
    requires LabelsInside(code) && 0 <= i < |code|
    ensures JumpsStay(code, i, n)
  {
    forall j: nat | j <= n ensures 0 <= FinalTarget(code, i, j) < |code| { TargetInside(code, i, j); }
  }

  /** Following up to `n` jumps from `i` never leaves the code. */
  ghost predicate JumpsStay(code: Code, i: int, n: nat) {
    forall j: nat {:trigger FinalTarget(code, i, j)} :: j <= n ==> 0 <= FinalTarget(code, i, j) < |code|
  }

  /** The calls before slot `n` of the rules are corrected, the others are not. */
  ghost predicate Corrected(m: Mode, raw: Code, code: Code, from: nat, n: int)
    requires !m.main && from + |raw| == |code|
  {
    forall k {:trigger raw[k]} {:trigger CorrectCall(m, raw, k)} ::
      0 <= k < |raw| ==> code[from + k] == if k < n then CorrectCall(m, raw, k) else raw[k]
  }

  lemma NotYetCorrected(m: Mode, code: Code, from: nat)
    requires !m.main && from <= |code|
    ensures Corrected(m, code[from..], code, from, 0)
  {
  }

  lemma JumpOne(code: Code, t: int)
    requires 0 <= t < |code| && code[t].IJmp?
    ensures FinalTarget(code, t, 1) == t + code[t].off
  {
    assert FinalTarget(code, t + code[t].off, 0) == t + code[t].off;
  }

  // ----- the rules before their calls are corrected

  lemma GrammarSteps(base: Code, raw: Code)
    ensures var a := base + Emit(ICall(0)) + Emit(IJmp(0));
            && CanPatch(a, |base|)
            && Patched(a, |base|, |a|) == base + Emit(ICall(4)) + Emit(IJmp(0))
    ensures var b := base + Emit(ICall(4)) + Emit(IJmp(0)) + raw;
            var end := |base + Emit(ICall(0))|;
            && CanPatch(b, end)
            && Patched(b, end, |b|) == base + Emit(ICall(4)) + Emit(IJmp(2 + |raw|)) + raw
  {
    hide Emit, CanPatch, Patched;
    Patch(base, ICall(0), Emit(IJmp(0)), |base| + 4);
    Patch(base + Emit(ICall(4)), IJmp(0), raw, |base| + 4 + |raw|);
  }

  lemma GrammarSlices(base: Code, raw: Code, corrected: Code)
    ensures var head := base + Emit(ICall(4)) + Emit(IJmp(2 + |raw|));
            && |head| == |base| + 4 && (head + raw)[..|base| + 4] == head && (head + raw)[|base| + 4..] == raw
            && head + corrected == base + (Emit(ICall(4)) + Emit(IJmp(2 + |raw|)) + corrected)
  {
    hide Emit;
  }

  lemma RuleAppended(pre: Code, m: Mode, k: nat)
    requires !m.main && k < |m.g|
    ensures pre + RulesCode(m, k) + Gen(m, m.g[k], false, NoTest, FULLSET) + Emit(IRet) == pre + RulesCode(m, k + 1)
    ensures |pre| + RuleStart(m, k + 1) == |pre + RulesCode(m, k + 1)|
  {
    hide Gen, Emit;
  }

  lemma RulesNeat(m: Mode)
    requires !m.main
    ensures Neat(m.g, RulesCode(m, |m.g|), 0, |RulesCode(m, |m.g|)| - 1)
  {
    hide Neat;
    NeatRules(m, |m.g|, |RulesCode(m, |m.g|)| - 1);
  }

  lemma CalledRule(m: Mode, k: nat)
    requires !m.main && WellFormedRules(m.g)
    requires k < |RulesCode(m, |m.g|)| && RulesCode(m, |m.g|)[k].IOpenCall?
    ensures RulesCode(m, |m.g|)[k].rule < |m.g|
  {
    RulesNeat(m);
    hide RulesCode;
    CallsInRange(m, k);
    if |m.g| == 0 { NoRules(m); }
  }

  /** The slots that belong to an instruction stay as they are. */
  lemma SkippedSlots(m: Mode, raw: Code, k: nat)
    requires !m.main && LaidOut(raw, 0) && k < |raw|
    ensures Size(CorrectCall(m, raw, k)) == Size(raw[k]) && k + Size(raw[k]) <= |raw|
    ensures forall j :: k < j < k + Size(raw[k]) ==> CorrectCall(m, raw, j) == raw[j]
  {
    hide LeadsToRet, RuleStart;
    assert raw[k] == raw[k];
    forall j | k < j < k + Size(raw[k]) ensures CorrectCall(m, raw, j) == raw[j] { assert raw[j].Pad?; }
  }

  /** From `q` on, at or behind `lim`, the jumps of the raw code end, and not at an open call before
      `lim`. */
  lemma {:induction false} EndsAhead(raw: Code, q: nat, lim: nat) returns (n: nat)
    requires Progress(raw) && Fits(raw, 0, |raw| - 1) && lim <= q < |raw|
    ensures var t := FinalTarget(raw, q, n); 0 <= t < |raw| && !raw[t].IJmp? && (t < lim ==> !raw[t].IOpenCall?)
    decreases |raw| - q
  {
    hide FinalTarget;
    assert Advances(raw, q);
    n :| var t := FinalTarget(raw, q, n); t > q || StopsAt(raw, q, t);
    var t := FinalTarget(raw, q, n);
    if t > q {
      TargetBelow(raw, q, n);
      var n2 := EndsAhead(raw, t, lim);
      TargetAdd(raw, q, n, n2);
      n := n + n2;
    }
  }

  lemma {:induction false} TargetBelow(c: Code, k: int, n: nat)
    requires Fits(c, 0, |c| - 1) && 0 <= k < |c|
    ensures 0 <= FinalTarget(c, k, n) < |c|
    decreases n
  {
    if n > 0 && c[k].IJmp? { TargetBelow(c, k + c[k].off, n - 1); }
  }

  /** The jumps of a part are jumps of the whole, all of them inside the part. */
  lemma {:induction false} JumpsInside(part: Code, whole: Code, at: nat, k: int, n: nat) returns (n': nat)
    requires at + |part| <= |whole| && Fits(part, 0, |part| - 1) && 0 <= k < |part|
    requires forall j :: 0 <= j < |part| && part[j].IJmp? ==> whole[at + j] == part[j]
    ensures FinalTarget(whole, at + k, n') == at + FinalTarget(part, k, n)
    ensures JumpsStay(whole, at + k, n')
    decreases n
  {
    n' := 0;
    if n > 0 && part[k].IJmp? {
      var k' := k + part[k].off;
      n' := JumpsInside(part, whole, at, k', n - 1);
      n' := n' + 1;
      assert at + k' == at + k + whole[at + k].off;
      StayOneMore(whole, at + k, n');
    }
  }

  lemma StayOneMore(code: Code, i: int, n: nat)
    requires 0 < n && 0 <= i < |code| && code[i].IJmp? && JumpsStay(code, i + code[i].off, n - 1)
    ensures JumpsStay(code, i, n)
  {
    forall j: nat | j <= n ensures 0 <= FinalTarget(code, i, j) < |code| {
      if j > 0 { assert 0 <= FinalTarget(code, i + code[i].off, j - 1) < |code|; }
    }
  }

  lemma LastIsRet(m: Mode)
    requires !m.main && |m.g| > 0
    ensures var raw := RulesCode(m, |m.g|); |raw| > 0 && raw[|raw| - 1] == IRet
  {
    hide Gen;
  }

  /** The jumps after an open call end in the part of the code not yet corrected, or at an
      instruction that is never corrected; so they can be followed in the code being corrected. */
  /** Visiting a jump that became a commit once more changes nothing. */
  lemma VisitAgain(code: Code, i: nat, b: nat)
    requires Whole(code, b) && i < |code| && !code[i].Pad?
    ensures Becomes(code, i, b) ==>
              var after := Rewrite(code, i, b);
              && Whole(after, b) && !after[i].Pad? && !after[i].IJmp? && code[i].IJmp?
              && Optimized(after, i, b) == Optimized(code, i, b)
  {
    hide NoJumpCycle, LabelsInside, Rewrite, LaidOut, Owned, FinalTarget;
    if Becomes(code, i, b) {
      RewriteWhole(code, i, b);
      Revisited(code, i, b);
    }
  }

  /** One call corrected, and the slots up to the next instruction passed over. */
  lemma CorrectedStep(m: Mode, raw: Code, was: Code, code: Code, from: nat, at: nat)
    requires !m.main && from + |raw| == |was| && at < |raw| && Corrected(m, raw, was, from, at)
    requires code == was[from + at := CorrectCall(m, raw, at)]
    requires forall j :: at < j < at + Size(raw[at]) && j < |raw| ==> CorrectCall(m, raw, j) == raw[j]
    ensures Corrected(m, raw, code, from, at + Size(raw[at]))
  {
    hide CorrectCall, Size;
    var next := at + Size(raw[at]);
    forall k | 0 <= k < |raw| ensures code[from + k] == if k < next then CorrectCall(m, raw, k) else raw[k] {
      assert was[from + k] == if k < at then CorrectCall(m, raw, k) else raw[k];
    }
  }

  lemma AllCorrected(m: Mode, raw: Code, code: Code, from: nat)
    requires !m.main && from + |raw| == |code| && Corrected(m, raw, code, from, |raw|)
    ensures code == code[..from] + CorrectCalls(m, raw)
  {
    hide CorrectCall;
    assert code[from..] == CorrectCalls(m, raw);
  }

  /** Only open calls are corrected. */
  lemma OthersStay(m: Mode, raw: Code, code: Code, from: nat, k: nat)
    requires !m.main && from + |raw| == |code| && Corrected(m, raw, code, from, k)
    ensures forall j :: 0 <= j < |raw| && !raw[j].IOpenCall? ==> code[from + j] == raw[j]
    ensures forall j :: k <= j < |raw| ==> code[from + j] == raw[j]
  {
    forall j | k <= j < |raw| ensures code[from + j] == raw[j] { assert raw[j] == raw[j]; }
    forall j | 0 <= j < |raw| && !raw[j].IOpenCall? ensures code[from + j] == raw[j] {
      if j < k { assert code[from + j] == CorrectCall(m, raw, j); }
    }
  }

  lemma AheadOfCall(m: Mode, raw: Code, code: Code, from: nat, k: nat) returns (n: nat)
    requires !m.main && raw == RulesCode(m, |m.g|) && from + |raw| == |code| && k < |raw| && raw[k].IOpenCall?
    requires Neat(m.g, raw, 0, |raw| - 1)
    requires Corrected(m, raw, code, from, k)
    ensures Settled(code, FinalTarget(code, from + k + 2, n))
    ensures JumpsStay(code, from + k + 2, n)
    ensures code[FinalTarget(code, from + k + 2, n)].IRet? <==> LeadsToRet(raw, k + 2)
  {
    hide RulesCode, FinalTarget, RuleStart, Corrected;
    if |m.g| == 0 { NoRules(m); }
    LastIsRet(m);
    assert raw[k] == raw[k];
    assert k + 2 < |raw|;
    OthersStay(m, raw, code, from, k);
    var n0 := EndsAhead(raw, k + 2, k + 2);
    var t := FinalTarget(raw, k + 2, n0);
    assert code[from + t] == raw[t];
    n := JumpsInside(raw, code, from, k + 2, n0);
    assert from + (k + 2) == from + k + 2;
    if LeadsToRet(raw, k + 2) {
      var n1: nat :| var t1 := FinalTarget(raw, k + 2, n1); 0 <= t1 < |raw| && raw[t1].IRet?;
      if n0 <= n1 { SettledStays(raw, k + 2, n0, n1); } else { SettledStays(raw, k + 2, n1, n0); }
    }
  }

  /** Appending code does not change what a test in front of it tells. */
  lemma KeepsTest(before: Code, after: Code, tt: int)
    requires tt < |before| && before <= after
    ensures TestAt(after, tt) == TestAt(before, tt)
  {
  }

  lemma NoInstruction(code: Code)
    ensures TestAt(code, NOINST) == NoTest
  {
  }

  lemma NothingToPatch(code: Code)
    ensures CanPatch(code, NOINST) && Patched(code, NOINST, |code|) == code
  {
  }

  /** Filling in the offset of an instruction emitted earlier. */
  lemma Patch(a: Code, ins: Instr, rest: Code, target: int)
    requires HasLabel(ins) || ins.IJmp?
    ensures CanPatch(a + Emit(ins) + rest, |a|)
    ensures Patched(a + Emit(ins) + rest, |a|, target) == a + Emit(WithOffset(ins, target - |a|)) + rest
  {
    assert Size(WithOffset(ins, target - |a|)) == Size(ins);
  }

  lemma PatchTest(a: Code, cs: Charset, e: bool, rest: Code, target: int)
    ensures var test := if e then NOINST else |a|;
            && CanPatch(a + CodeTest(cs, e, 0) + rest, test)
            && Patched(a + CodeTest(cs, e, 0) + rest, test, target) == a + CodeTest(cs, e, target - |a|) + rest
  {
    hide Emit, CharsetType;
    if !e { Patch(a, TestInstr(cs, 0), rest, target); }
  }

  // ----- the effect of the steps of each method, on any code for the parts

  lemma TestedChoiceCode(m: Mode, p1: Tree, p2: Tree, opt: bool, fl: Charset)
    requires TestedChoice(m, p1, p2, fl)
    ensures var cs := First(m.g, p1, FULLSET, DEPTH).cs;
            var c1 := Gen(m, p1, false, TestOf(cs, false), fl);
            var c2 := Gen(m, p2, opt, NoTest, fl);
            GenChoice(m, p1, p2, opt, fl) ==
              if p2.TTrue? then CodeTest(cs, false, TestSize(cs, false) + |c1|) + c1 + [] + c2
              else CodeTest(cs, false, TestSize(cs, false) + |c1| + 2) + c1 + Emit(IJmp(2 + |c2|)) + c2
  {
    hide First, Gen, Emit, CodeTest, TestSize, TestOf, TestedChoice;
  }

  lemma TestedChoiceSteps(start: Code, cs: Charset, c1: Code, c2: Code)
    ensures var a := start + CodeTest(cs, false, 0) + c1;
            && CanPatch(a, |start|)
            && Patched(a, |start|, |a|) + [] + c2
                == start + (CodeTest(cs, false, TestSize(cs, false) + |c1|) + c1 + [] + c2)
            && Patched(a, |start|, |a|) + c2 == start + (CodeTest(cs, false, TestSize(cs, false) + |c1|) + c1 + [] + c2)
    ensures var a := start + CodeTest(cs, false, 0) + c1 + Emit(IJmp(0));
            && CanPatch(a, |start|)
            && var b := Patched(a, |start|, |a|) + c2;
            var jmp := |start + CodeTest(cs, false, 0) + c1|;
            && CanPatch(b, jmp)
            && Patched(b, jmp, |b|)
               == start + (CodeTest(cs, false, TestSize(cs, false) + |c1| + 2) + c1 + Emit(IJmp(2 + |c2|)) + c2)
  {
    hide Emit, CodeTest, TestSize, CanPatch, Patched;
    var ct0 := CodeTest(cs, false, 0);
    var sz := TestSize(cs, false);
    PatchTest(start, cs, false, c1, |start| + sz + |c1|);
    assert start + ct0 + (c1 + Emit(IJmp(0))) == start + ct0 + c1 + Emit(IJmp(0));
    PatchTest(start, cs, false, c1 + Emit(IJmp(0)), |start| + sz + |c1| + 2);
    var ct := CodeTest(cs, false, sz + |c1| + 2);
    assert start + ct + (c1 + Emit(IJmp(0))) + c2 == (start + ct + c1) + Emit(IJmp(0)) + c2;
    Patch(start + ct + c1, IJmp(0), c2, |start| + sz + |c1| + 2 + |c2|);
    assert start + (ct + c1 + Emit(IJmp(2 + |c2|)) + c2) == (start + ct + c1) + Emit(IJmp(2 + |c2|)) + c2;
  }

  lemma SharedChoiceSteps(start: Code, c: Code)
    ensures var a := start + Emit(IPartialCommit(0));
            && CanPatch(a, |start|)
            && Patched(a, |start|, |a|) + c == start + (Emit(IPartialCommit(2)) + c)
  {
    hide Emit, CanPatch, Patched;
    var a := start + Emit(IPartialCommit(0));
    assert a + [] == a;
    Patch(start, IPartialCommit(0), [], |a|);
    assert start + Emit(IPartialCommit(2)) + [] + c == start + (Emit(IPartialCommit(2)) + c);
  }

  lemma PlainChoiceCode(m: Mode, p1: Tree, p2: Tree, opt: bool, fl: Charset)
    requires !TestedChoice(m, p1, p2, fl) && !(opt && p2.TTrue?)
    ensures var f1 := First(m.g, p1, FULLSET, DEPTH);
            var c1 := Gen(m, p1, p2.TTrue?, TestOf(f1.cs, f1.e), FULLSET);
            var c2 := Gen(m, p2, opt, NoTest, fl);
            GenChoice(m, p1, p2, opt, fl)
            == CodeTest(f1.cs, f1.e, TestSize(f1.cs, f1.e) + 4 + |c1|) + Emit(IChoice(4 + |c1|)) + c1
                + Emit(ICommit(2 + |c2|)) + c2
  {
    hide First, HeadFail, Gen, Emit, CodeTest, TestOf, TestSize, TestedChoice;
  }

  lemma PlainChoiceSteps(start: Code, f: FirstSet, c1: Code)
    ensures var ct0 := CodeTest(f.cs, f.e, 0);
            var sz := TestSize(f.cs, f.e);
            var test := if f.e then NOINST else |start|;
            var a := start + ct0 + Emit(IChoice(0)) + c1 + Emit(ICommit(0));
            && CanPatch(a, |start + ct0|)
            && var b := Patched(a, |start + ct0|, |a|);
            && CanPatch(b, test)
            && Patched(b, test, |b|)
               == start + CodeTest(f.cs, f.e, sz + 4 + |c1|) + (Emit(IChoice(4 + |c1|)) + c1 + Emit(ICommit(0)))
  {
    hide Emit, CodeTest, TestSize, CanPatch, Patched;
    var ct0 := CodeTest(f.cs, f.e, 0);
    var sz := TestSize(f.cs, f.e);
    var cm0 := Emit(ICommit(0));
    var ch := Emit(IChoice(4 + |c1|));
    var end := |start| + sz + 4 + |c1|;
    assert (start + ct0) + Emit(IChoice(0)) + (c1 + cm0) == start + ct0 + Emit(IChoice(0)) + c1 + cm0;
    Patch(start + ct0, IChoice(0), c1 + cm0, end);
    assert (start + ct0) + ch + (c1 + cm0) == start + ct0 + (ch + c1 + cm0);
    PatchTest(start, f.cs, f.e, ch + c1 + cm0, end);
  }

  lemma PlainChoiceLastStep(start: Code, ct: Code, ch: Code, c1: Code, c2: Code)
    ensures var c := start + ct + (ch + c1 + Emit(ICommit(0))) + c2;
            var pcommit := |start| + |ct| + |ch| + |c1|;
            && CanPatch(c, pcommit)
            && Patched(c, pcommit, |c|) == start + (ct + ch + c1 + Emit(ICommit(2 + |c2|)) + c2)
  {
    hide Emit, CanPatch, Patched;
    var cm0 := Emit(ICommit(0));
    var cm := Emit(ICommit(2 + |c2|));
    var a := start + ct + ch + c1;
    assert start + ct + (ch + c1 + cm0) + c2 == a + cm0 + c2;
    Patch(a, ICommit(0), c2, |a| + 2 + |c2|);
    assert start + (ct + ch + c1 + cm + c2) == a + cm + c2;
  }

  lemma TestedLoopSteps(start: Code, cs: Charset, c: Code)
    ensures var ct0 := CodeTest(cs, false, 0);
            var sz := TestSize(cs, false);
            var a := start + ct0 + c + Emit(IJmp(0));
            && CanPatch(a, |start|)
            && var b := Patched(a, |start|, |a|);
            var jmp := |start + ct0 + c|;
            && CanPatch(b, jmp)
            && Patched(b, jmp, |start|) == start + (CodeTest(cs, false, sz + |c| + 2) + c + Emit(IJmp(-(sz + |c|))))
  {
    hide Emit, CodeTest, TestSize, CanPatch, Patched;
    var ct0 := CodeTest(cs, false, 0);
    var sz := TestSize(cs, false);
    var ct := CodeTest(cs, false, sz + |c| + 2);
    assert start + ct0 + (c + Emit(IJmp(0))) == start + ct0 + c + Emit(IJmp(0));
    PatchTest(start, cs, false, c + Emit(IJmp(0)), |start| + sz + |c| + 2);
    assert start + ct + (c + Emit(IJmp(0))) == (start + ct + c) + Emit(IJmp(0)) + [];
    Patch(start + ct + c, IJmp(0), [], |start|);
    assert start + (ct + c + Emit(IJmp(-(sz + |c|)))) == (start + ct + c) + Emit(IJmp(-(sz + |c|))) + [];
  }

  lemma PlainLoopCode(m: Mode, p: Tree, opt: bool, fl: Charset)
    requires ToCharset(p).None? && !TestedLoop(m, p, fl)
    ensures var f := First(m.g, p, FULLSET, DEPTH);
            var c := Gen(m, p, false, NoTest, FULLSET);
            GenRep(m, p, opt, fl)
            == CodeTest(f.cs, f.e, TestSize(f.cs, f.e) + 4 + |c|)
               + (if opt then Emit(IPartialCommit(2)) else Emit(IChoice(4 + |c|)))
               + c + Emit(IPartialCommit(-|c|))
  {
    hide First, HeadFail, Gen, Emit, CodeTest, TestOf, TestSize, TestedLoop;
  }

  lemma OpenStep(pre: Code)
    ensures var a := pre + Emit(IPartialCommit(0));
            CanPatch(a, |pre|) && Patched(a, |pre|, |a|) == pre + Emit(IPartialCommit(2))
  {
    hide Emit, CanPatch, Patched;
    assert pre + Emit(IPartialCommit(0)) + [] == pre + Emit(IPartialCommit(0));
    assert pre + Emit(IPartialCommit(2)) + [] == pre + Emit(IPartialCommit(2));
    Patch(pre, IPartialCommit(0), [], |pre| + 2);
  }

  lemma LoopBackStep(a: Code, c: Code)
    ensures var b := a + c + Emit(IPartialCommit(0));
            && CanPatch(b, |a + c|)
            && Patched(b, |a + c|, |a|) == a + c + Emit(IPartialCommit(-|c|))
  {
    hide Emit, CanPatch, Patched;
    assert (a + c) + Emit(IPartialCommit(0)) + [] == a + c + Emit(IPartialCommit(0));
    Patch(a + c, IPartialCommit(0), [], |a|);
  }

  /** Filling in the choice of a loop in front of `rest`. */
  lemma OpenPatched(pre: Code, opt: bool, rest: Code)
    ensures var d := pre + (if opt then Emit(IPartialCommit(2)) else Emit(IChoice(0))) + rest;
            var pchoice := if opt then NOINST else |pre|;
            && CanPatch(d, pchoice)
            && Patched(d, pchoice, |d|)
               == pre + (if opt then Emit(IPartialCommit(2)) else Emit(IChoice(2 + |rest|))) + rest
  {
    hide Emit, CanPatch, Patched;
    NothingToPatch(pre + Emit(IPartialCommit(2)) + rest);
    Patch(pre, IChoice(0), rest, |pre| + 2 + |rest|);
  }

  lemma LoopOpenStep(start: Code, f: FirstSet, opt: bool, c: Code)
    ensures var ct0 := CodeTest(f.cs, f.e, 0);
            var cm := Emit(IPartialCommit(-|c|));
            var test := if f.e then NOINST else |start|;
            var d := start + ct0 + (if opt then Emit(IPartialCommit(2)) else Emit(IChoice(0))) + c + cm;
            var pchoice := if opt then NOINST else |start + ct0|;
            && CanPatch(d, pchoice)
            && var h := Patched(d, pchoice, |d|);
            && CanPatch(h, test)
            && Patched(h, test, |h|)
               == start + (CodeTest(f.cs, f.e, TestSize(f.cs, f.e) + 4 + |c|)
                           + (if opt then Emit(IPartialCommit(2)) else Emit(IChoice(4 + |c|))) + c + cm)
  {
    hide Emit, CodeTest, TestSize, CanPatch, Patched;
    var ct0 := CodeTest(f.cs, f.e, 0);
    var sz := TestSize(f.cs, f.e);
    var cm := Emit(IPartialCommit(-|c|));
    var pre := start + ct0;
    var open0 := if opt then Emit(IPartialCommit(2)) else Emit(IChoice(0));
    var open := if opt then Emit(IPartialCommit(2)) else Emit(IChoice(4 + |c|));
    var d := pre + open0 + c + cm;
    assert d == pre + open0 + (c + cm);
    OpenPatched(pre, opt, c + cm);
    assert pre + open + (c + cm) == start + ct0 + (open + c + cm);
    PatchTest(start, f.cs, f.e, open + c + cm, |start| + sz + 4 + |c|);
    var ct := CodeTest(f.cs, f.e, sz + 4 + |c|);
    assert start + ct + (open + c + cm) == start + (ct + open + c + cm);
  }

  lemma NotCode(m: Mode, p: Tree)
    ensures var f := First(m.g, p, FULLSET, DEPTH);
            var c := Gen(m, p, false, NoTest, FULLSET);
            var sz := TestSize(f.cs, f.e);
            GenNot(m, p) ==
              if HeadFail(m.g, p, DEPTH) then CodeTest(f.cs, f.e, sz + 1) + Emit(IFail)
              else CodeTest(f.cs, f.e, sz + 2 + |c| + 1) + Emit(IChoice(2 + |c| + 1)) + c + Emit(IFailTwice)
  {
    hide First, HeadFail, Gen, Emit, CodeTest, TestSize;
  }

  lemma NotSteps(start: Code, f: FirstSet, c: Code)
    ensures var ct0 := CodeTest(f.cs, f.e, 0);
            var sz := TestSize(f.cs, f.e);
            var test := if f.e then NOINST else |start|;
            var a := start + ct0 + Emit(IFail);
            && CanPatch(a, test)
            && Patched(a, test, |a|) == start + (CodeTest(f.cs, f.e, sz + 1) + Emit(IFail))
    ensures var ct0 := CodeTest(f.cs, f.e, 0);
            var sz := TestSize(f.cs, f.e);
            var test := if f.e then NOINST else |start|;
            var a := start + ct0 + Emit(IChoice(0)) + c + Emit(IFailTwice);
            && CanPatch(a, |start + ct0|)
            && var b := Patched(a, |start + ct0|, |a|);
            && CanPatch(b, test)
            && Patched(b, test, |b|)
               == start + (CodeTest(f.cs, f.e, sz + 2 + |c| + 1) + Emit(IChoice(2 + |c| + 1)) + c + Emit(IFailTwice))
  {
    hide Emit, CodeTest, TestSize, CanPatch, Patched;
    var ct0 := CodeTest(f.cs, f.e, 0);
    var sz := TestSize(f.cs, f.e);
    var ft := Emit(IFailTwice);
    var ch := Emit(IChoice(2 + |c| + 1));
    PatchTest(start, f.cs, f.e, Emit(IFail), |start| + sz + 1);
    assert start + CodeTest(f.cs, f.e, sz + 1) + Emit(IFail) == start + (CodeTest(f.cs, f.e, sz + 1) + Emit(IFail));
    var end := |start| + sz + 2 + |c| + 1;
    assert (start + ct0) + Emit(IChoice(0)) + (c + ft) == start + ct0 + Emit(IChoice(0)) + c + ft;
    Patch(start + ct0, IChoice(0), c + ft, end);
    assert (start + ct0) + ch + (c + ft) == start + ct0 + (ch + c + ft);
    PatchTest(start, f.cs, f.e, ch + c + ft, end);
    var ct := CodeTest(f.cs, f.e, sz + 2 + |c| + 1);
    assert start + ct + (ch + c + ft) == start + (ct + ch + c + ft);
  }

  lemma AndSteps(start: Code, c: Code, n: int)
    ensures n > 0 ==> start + c + Emit(IBehind(n)) == start + (c + BehindCode(n))
    ensures n == 0 ==> start + c == start + (c + BehindCode(n))
    ensures var a := start + Emit(IChoice(0)) + c + Emit(IBackCommit(0));
            && CanPatch(a, |start|)
            && var b := Patched(a, |start|, |a|) + Emit(IFail);
            var pcommit := |start + Emit(IChoice(0)) + c|;
            && CanPatch(b, pcommit)
            && Patched(b, pcommit, |b|) == start + (Emit(IChoice(2 + |c| + 2)) + c + Emit(IBackCommit(3)) + Emit(IFail))
  {
    hide Emit, CanPatch, Patched;
    var bc0 := Emit(IBackCommit(0));
    var bc := Emit(IBackCommit(3));
    var ch := Emit(IChoice(2 + |c| + 2));
    if n > 0 { assert start + c + Emit(IBehind(n)) == start + (c + BehindCode(n)); }
    assert start + Emit(IChoice(0)) + (c + bc0) == start + Emit(IChoice(0)) + c + bc0;
    Patch(start, IChoice(0), c + bc0, |start| + 4 + |c|);
    assert start + ch + (c + bc0) + Emit(IFail) == (start + ch + c) + bc0 + Emit(IFail);
    Patch(start + ch + c, IBackCommit(0), Emit(IFail), |start| + 5 + |c|);
    assert start + (ch + c + bc + Emit(IFail)) == (start + ch + c) + bc + Emit(IFail);
  }
}
