module Peephole {
  /**
   The last pass over the code: labels are threaded through plain jumps, and a jump to an instruction
   that jumps becomes that instruction.  The pass keeps the result of every halting run.
   */

  import opened Peg
  import opened Machine
  import opened CodeGen

  // ----- labels

  predicate HasLabel(ins: Instr) {
    match ins
    case IChoice(_) => true
    case ICall(_) => true
    case ICommit(_) => true
    case IPartialCommit(_) => true
    case IBackCommit(_) => true
    case ITestChar(_, _) => true
    case ITestSet(_, _) => true
    case ITestAny(_) => true
    case _ => false
  }

  function Retarget(ins: Instr, off: int): Instr
    requires HasLabel(ins)
  {
    match ins
    case IChoice(_) => IChoice(off)
    case ICall(_) => ICall(off)
    case ICommit(_) => ICommit(off)
    case IPartialCommit(_) => IPartialCommit(off)
    case IBackCommit(_) => IBackCommit(off)
    case ITestChar(c, _) => ITestChar(c, off)
    case ITestSet(cs, _) => ITestSet(cs, off)
    case ITestAny(_) => ITestAny(off)
  }

  /** Instructions that never fall through and jump without a label of their own. */
  predicate Leaves(ins: Instr) { ins.IRet? || ins.IFail? || ins.IFailTwice? || ins.IEnd? }

  /** Instructions that always jump to their label. */
  predicate Commits(ins: Instr) { ins.ICommit? || ins.IPartialCommit? || ins.IBackCommit? }

  // ----- jumps

  ghost predicate Settled(code: Code, i: int) { !(0 <= i < |code| && code[i].IJmp?) }

  /** Every chain of jumps is at its end after `b` jumps. */
  ghost predicate NoJumpCycle(code: Code, b: nat) {
    forall i: int :: Settled(code, FinalTarget(code, i, b))
  }

  /** Labels and jumps stay inside the code. */
  ghost predicate LabelsInside(code: Code) {
    forall k {:trigger code[k]} :: 0 <= k < |code| && (HasLabel(code[k]) || code[k].IJmp?) ==>
      0 <= k + code[k].off < |code|
  }

  /** The slots that belong to an instruction follow it. */
  ghost predicate LaidOut(code: Code, from: nat) {
    forall k {:trigger code[k]} :: from <= k < |code| ==>
      && k + Size(code[k]) <= |code|
      && forall j {:trigger code[j]} :: k < j < k + Size(code[k]) ==> code[j].Pad?
  }

  /** Every slot that begins no instruction belongs to an instruction before it. */
  ghost predicate Owned(code: Code) {
    forall k {:trigger code[k]} :: 0 <= k < |code| && code[k].Pad? ==> exists h :: OwnedBy(code, k, h)
  }

  ghost predicate OwnedBy(code: Code, k: int, h: int) {
    0 <= h < k < |code| && !code[h].Pad? && k < h + Size(code[h])
  }

  lemma {:induction false} SettledStays(code: Code, i: int, n: nat, m: nat)
    requires n <= m && Settled(code, FinalTarget(code, i, n))
    ensures FinalTarget(code, i, m) == FinalTarget(code, i, n)
    decreases n
  {
    if n == 0 || !(0 <= i < |code| && code[i].IJmp?) {
      if m > 0 {}
    } else {
      SettledStays(code, i + code[i].off, n - 1, m - 1);
    }
  }

  /** A jump and its target have the same final target. */
  lemma JumpTarget(code: Code, i: int, b: nat)
    requires NoJumpCycle(code, b) && 0 <= i < |code| && code[i].IJmp?
    ensures FinalTarget(code, i, b) == FinalTarget(code, i + code[i].off, b)
  {
    assert Settled(code, FinalTarget(code, i, b));
    SettledStays(code, i, b, b + 1);
  }

  lemma {:induction false} TargetInside(code: Code, i: int, n: nat)
    requires LabelsInside(code) && 0 <= i < |code|
    ensures 0 <= FinalTarget(code, i, n) < |code|
    decreases n
  {
    if n > 0 && code[i].IJmp? { TargetInside(code, i + code[i].off, n - 1); }
  }

  // ----- one rewriting

  /** Instruction `i` rewritten; `b` bounds the jumps followed. */
  function Rewrite(code: Code, i: nat, b: nat): (c: Code)
    requires i < |code|
    ensures |c| == |code|
  {
    if HasLabel(code[i]) then
      code[i := Retarget(code[i], FinalTarget(code, i + code[i].off, b) - i)]
    else if code[i].IJmp? then
      var ft := FinalTarget(code, i, b);
      if !(0 <= ft < |code|) then code
      else if Leaves(code[ft]) then
        (if i + 1 < |code| then code[i := code[ft]][i + 1 := IAny] else code[i := code[ft]])
      else if Commits(code[ft]) then
        code[i := Retarget(code[ft], FinalTarget(code, ft + code[ft].off, b) - i)]
      else code[i := IJmp(ft - i)]
    else code
  }

  // ----- simulation

  /** Both addresses lead to the same instruction of the old code. */
  ghost predicate SamePc(code: Code, b: nat, pc: int, pc': int) {
    FinalTarget(code, pc, b) == FinalTarget(code, pc', b)
  }

  ghost predicate SameStack(code: Code, b: nat, stk: Stack, stk': Stack) {
    match stk
    case Base => stk' == Base
    case Choice(alt, pos, below) =>
      stk'.Choice? && SamePc(code, b, alt, stk'.alt) && pos == stk'.pos && SameStack(code, b, below, stk'.below)
    case Call(ret, below) =>
      stk'.Call? && SamePc(code, b, ret, stk'.ret) && SameStack(code, b, below, stk'.below)
  }

  ghost predicate SameState(code: Code, b: nat, st: State, st': State) {
    match st
    case Run(pc, pos, stk) => st'.Run? && SamePc(code, b, pc, st'.pc) && pos == st'.pos
        && SameStack(code, b, stk, st'.stk)
    case Halted(r) => st' == Halted(r)
    case Stuck => true
  }

  lemma {:induction false} SameBacktrack(code: Code, b: nat, stk: Stack, stk': Stack)
    requires SameStack(code, b, stk, stk')
    ensures SameState(code, b, Backtrack(stk), Backtrack(stk'))
  {
    if stk.Call? { SameBacktrack(code, b, stk.below, stk'.below); }
  }

  /** Running the jumps in front of `pc`. */
  lemma {:induction false} RunJumps(code: Code, s: Subject, pc: int, n: nat, pos: nat, stk: Stack) returns (k: nat)
    ensures Steps(code, s, Run(pc, pos, stk), k) == Run(FinalTarget(code, pc, n), pos, stk)
    decreases n
  {
    k := 0;
    if n > 0 && 0 <= pc < |code| && code[pc].IJmp? {
      k := RunJumps(code, s, pc + code[pc].off, n - 1, pos, stk);
      k := k + 1;
    }
  }

  /** The rewritten code does at `q` what the old code does at `t`. */
  ghost predicate Represents(code: Code, i: nat, b: nat, t: int, q: int) {
    q == t || (q == i && i < |code| && code[i].IJmp? && t == FinalTarget(code, i, b)
               && 0 <= t < |code| && (Leaves(code[t]) || Commits(code[t])))
  }

  /** Where the jumps of the rewritten code lead. */
  lemma {:induction false} RunNewJumps(code: Code, i: nat, b: nat, s: Subject, pc: int, n: nat, pos: nat, stk: Stack)
    returns (k: nat, q: int)
    requires i < |code| && NoJumpCycle(code, b) && LabelsInside(code) && Settled(code, FinalTarget(code, pc, n))
    requires i + 1 < |code| && code[i].IJmp? ==> code[i + 1].Pad?
    ensures var code' := Rewrite(code, i, b);
            && Steps(code', s, Run(pc, pos, stk), k) == Run(q, pos, stk)
            && Represents(code, i, b, FinalTarget(code, pc, b), q)
    decreases n
  {
    hide NoJumpCycle;
    var code' := Rewrite(code, i, b);
    AtBound(code, pc, b);
    if !(0 <= pc < |code| && code[pc].IJmp?) {
      k, q := 0, pc;
    } else {
      JumpTarget(code, pc, b);
      if pc != i {
        k, q := RunNewJumps(code, i, b, s, pc + code[pc].off, n - 1, pos, stk);
        k := k + 1;
      } else {
        TargetInside(code, i, b);
        var t := FinalTarget(code, i, b);
        if Leaves(code[t]) || Commits(code[t]) {
          k, q := 0, i;
        } else {
          k, q := 1, t;
          assert Steps(code', s, Run(i, pos, stk), 1) == Steps(code', s, Step(code', s, Run(i, pos, stk)), 0);
        }
      }
    }
  }

  lemma AtBound(code: Code, pc: int, b: nat)
    requires NoJumpCycle(code, b)
    ensures Settled(code, FinalTarget(code, pc, b))
  {
  }

  /** Threading a label does not change where it leads. */
  lemma SameLabel(code: Code, b: nat, l: int)
    requires NoJumpCycle(code, b)
    ensures SamePc(code, b, l, FinalTarget(code, l, b))
  {
    AtBound(code, l, b);
    var t := FinalTarget(code, l, b);
    SettledStays(code, t, 0, b);
  }

  /** The same instruction without a label, in the old code at `t` and in the new one at `q`. */
  lemma SamePlainStep(code: Code, code': Code, b: nat, s: Subject, t: int, q: int, pos: nat, stk: Stack, stk': Stack)
    requires 0 <= t < |code| && 0 <= q < |code'| && code'[q] == code[t] && (q == t || Leaves(code[t]))
    requires !HasLabel(code[t]) && !code[t].IJmp? && SameStack(code, b, stk, stk')
    ensures SameState(code, b, Step(code, s, Run(t, pos, stk)), Step(code', s, Run(q, pos, stk')))
  {
    hide FinalTarget;
    SameBacktrack(code, b, stk, stk');
    if stk.Choice? { SameBacktrack(code, b, stk.below, stk'.below); }
  }

  /** The same instruction up to a label that leads to the same place. */
  lemma SameLabelStep(code: Code, code': Code, b: nat, s: Subject, t: int, q: int, off: int, pos: nat, stk: Stack,
      stk': Stack)
    requires 0 <= t < |code| && 0 <= q < |code'| && HasLabel(code[t]) && code'[q] == Retarget(code[t], off)
    requires q == t || Commits(code[t])
    requires SamePc(code, b, t + code[t].off, q + off) && SameStack(code, b, stk, stk')
    ensures SameState(code, b, Step(code, s, Run(t, pos, stk)), Step(code', s, Run(q, pos, stk')))
  {
    hide FinalTarget;
  }

  /** One instruction that is not a plain jump, in the old code at `t` and in the new one at `q`. */
  lemma SameStep(code: Code, i: nat, b: nat, s: Subject, t: int, q: int, pos: nat, stk: Stack, stk': Stack)
    requires i < |code| && NoJumpCycle(code, b) && Settled(code, t)
    requires i + 1 < |code| && code[i].IJmp? ==> code[i + 1].Pad?
    requires Represents(code, i, b, t, q) && SameStack(code, b, stk, stk')
    requires !Step(code, s, Run(t, pos, stk)).Stuck?
    ensures SameState(code, b, Step(code, s, Run(t, pos, stk)), Step(Rewrite(code, i, b), s, Run(q, pos, stk')))
  {
    if t != GIVEUP {
      NotPad(code, s, t, pos, stk);
      RewrittenAt(code, i, b, t, q);
      hide NoJumpCycle, FinalTarget, Rewrite, Step, SameState, SameStack, Represents;
      var code' := Rewrite(code, i, b);
      if HasLabel(code[t]) {
        SameLabel(code, b, t + code[t].off);
        if code'[q] == code[t] && q == t {
          SameLabelStep(code, code', b, s, t, q, code[t].off, pos, stk, stk');
        } else {
          SameLabelStep(code, code', b, s, t, q, FinalTarget(code, t + code[t].off, b) - q, pos, stk, stk');
        }
      } else {
        SamePlainStep(code, code', b, s, t, q, pos, stk, stk');
      }
    }
  }

  lemma NotPad(code: Code, s: Subject, t: int, pos: nat, stk: Stack)
    requires t != GIVEUP && !Step(code, s, Run(t, pos, stk)).Stuck?
    ensures 0 <= t < |code| && !code[t].Pad?
  {
  }

  /** What the new code holds where it represents instruction `t`. */
  lemma RewrittenAt(code: Code, i: nat, b: nat, t: int, q: int)
    requires i < |code| && Settled(code, t) && 0 <= t < |code| && !code[t].Pad?
    requires i + 1 < |code| && code[i].IJmp? ==> code[i + 1].Pad?
    requires Represents(code, i, b, t, q)
    ensures 0 <= q < |code|
    ensures var ins := Rewrite(code, i, b)[q];
            || (ins == code[t] && (q == t || Leaves(code[t])))
            || (HasLabel(code[t]) && (q == t || Commits(code[t]))
                && ins == Retarget(code[t], FinalTarget(code, t + code[t].off, b) - q))
  {
    hide FinalTarget;
  }

  /** Rewriting one instruction keeps the result of a halting run. */
  lemma {:induction false} RewriteKeeps(code: Code, i: nat, b: nat, s: Subject, st: State, st': State, n: nat,
      r: Option<nat>)
    returns (n': nat)
    requires i < |code| && NoJumpCycle(code, b) && LabelsInside(code)
    requires i + 1 < |code| && code[i].IJmp? ==> code[i + 1].Pad?
    requires SameState(code, b, st, st') && Steps(code, s, st, n) == Halted(r)
    ensures Steps(Rewrite(code, i, b), s, st', n') == Halted(r)
    decreases n
  {
    hide NoJumpCycle, LabelsInside, Rewrite, FinalTarget;
    var code' := Rewrite(code, i, b);
    match st
    case Halted(_) => n' := 0; StepsFromFinal(code, s, st, n);
    case Stuck => n' := 0; StepsFromFinal(code, s, st, n);
    case Run(pc, pos, stk) =>
      var t := FinalTarget(code, pc, b);
      AtBound(code, pc, b);
      AtBound(code, st'.pc, b);
      var k := RunJumps(code, s, pc, b, pos, stk);
      var k', q := RunNewJumps(code, i, b, s, st'.pc, b, pos, st'.stk);
      if n <= k {
        StepsAdd(code, s, st, n, k - n);
        StepsFromFinal(code, s, Halted(r), k - n);
      }
      StepsAdd(code, s, st, k, n - k);
      var next := Step(code, s, Run(t, pos, stk));
      if next.Stuck? { StepsFromFinal(code, s, next, n - k - 1); }
      SameStep(code, i, b, s, t, q, pos, stk, st'.stk);
      var next' := Step(code', s, Run(q, pos, st'.stk));
      var m := RewriteKeeps(code, i, b, s, next, next', n - k - 1, r);
      n' := k' + (m + 1);
      StepsAdd(code', s, st', k', m + 1);
  }

  // ----- the whole pass

  /** Every halting run of `code` is matched by a run of `code'` with the same result. */
  ghost predicate SameResults(code: Code, code': Code) {
    forall s: Subject, i: nat, n: nat, r: Option<nat> {:trigger Steps(code, s, Start(i), n), Halted(r)} ::
      Steps(code, s, Start(i), n) == Halted(r) ==> exists n': nat :: Steps(code', s, Start(i), n') == Halted(r)
  }

  lemma RewriteSameResults(code: Code, i: nat, b: nat)
    requires i < |code| && NoJumpCycle(code, b) && LabelsInside(code)
    requires i + 1 < |code| && code[i].IJmp? ==> code[i + 1].Pad?
    ensures SameResults(code, Rewrite(code, i, b))
  {
    hide NoJumpCycle, LabelsInside, Rewrite, FinalTarget;
    forall p: nat ensures SameState(code, b, Start(p), Start(p)) { assert SameStack(code, b, Base, Base); }
    forall s: Subject, p: nat, n: nat, r: Option<nat> | Steps(code, s, Start(p), n) == Halted(r)
      ensures exists n': nat :: Steps(Rewrite(code, i, b), s, Start(p), n') == Halted(r)
    {
      var n' := RewriteKeeps(code, i, b, s, Start(p), Start(p), n, r);
    }
  }

  lemma SameResultsTrans(a: Code, b: Code, c: Code)
    requires SameResults(a, b) && SameResults(b, c)
    ensures SameResults(a, c)
  {
    forall s: Subject, i: nat, n: nat, r: Option<nat> | Steps(a, s, Start(i), n) == Halted(r)
      ensures exists n': nat :: Steps(c, s, Start(i), n') == Halted(r)
    {
      var m: nat :| Steps(b, s, Start(i), m) == Halted(r);
    }
  }

  lemma RewriteLabelsInside(code: Code, i: nat, b: nat)
    requires i < |code| && LabelsInside(code)
    ensures LabelsInside(Rewrite(code, i, b))
  {
    hide FinalTarget;
    if HasLabel(code[i]) { TargetInside(code, i + code[i].off, b); }
    if code[i].IJmp? {
      TargetInside(code, i, b);
      var ft := FinalTarget(code, i, b);
      if Commits(code[ft]) { TargetInside(code, ft + code[ft].off, b); }
    }
  }

  /** Rewriting never lengthens a chain of jumps. */
  lemma {:induction false} RewriteSettles(code: Code, i: nat, b: nat, pc: int, n: nat)
    requires i < |code| && LabelsInside(code) && Settled(code, FinalTarget(code, pc, n)) && NoJumpCycle(code, b)
    requires i + 1 < |code| && code[i].IJmp? ==> code[i + 1].Pad?
    ensures Settled(Rewrite(code, i, b), FinalTarget(Rewrite(code, i, b), pc, n))
    decreases n
  {
    hide NoJumpCycle;
    var code' := Rewrite(code, i, b);
    if 0 <= pc < |code| && code[pc].IJmp? {
      if pc != i {
        RewriteSettles(code, i, b, pc + code[pc].off, n - 1);
      } else {
        AtBound(code, i, b);
        TargetInside(code, i, b);
      }
    }
  }

  lemma RewriteNoJumpCycle(code: Code, i: nat, b: nat)
    requires i < |code| && LabelsInside(code) && NoJumpCycle(code, b)
    requires i + 1 < |code| && code[i].IJmp? ==> code[i + 1].Pad?
    ensures NoJumpCycle(Rewrite(code, i, b), b)
  {
    forall pc: int ensures Settled(Rewrite(code, i, b), FinalTarget(Rewrite(code, i, b), pc, b)) {
      RewriteSettles(code, i, b, pc, b);
    }
  }

  /** Instruction `k` needs no further rewriting: its label leads to no jump, and if it is itself a
      jump it leads to an instruction that goes on to the next one. */
  ghost predicate Threaded(code: Code, k: nat)
    requires k < |code|
  {
    && (HasLabel(code[k]) ==> Settled(code, k + code[k].off))
    && (code[k].IJmp? ==> var t := k + code[k].off;
                          Settled(code, t) && (0 <= t < |code| ==> !Leaves(code[t]) && !Commits(code[t])))
  }

  ghost predicate ThreadedUpTo(code: Code, n: nat) {
    forall k :: 0 <= k < n && k < |code| ==> Threaded(code, k)
  }

  lemma RewriteThreads(code: Code, i: nat, b: nat, next: nat)
    requires i < |code| && LabelsInside(code) && NoJumpCycle(code, b) && ThreadedUpTo(code, i)
    requires i + 1 < |code| && code[i].IJmp? ==> code[i + 1].Pad?
    requires i < next <= |code| && forall j :: i < j < next ==> code[j].Pad?
    ensures ThreadedUpTo(Rewrite(code, i, b), next)
  {
    hide FinalTarget, NoJumpCycle;
    var code' := Rewrite(code, i, b);
    forall k | 0 <= k < next && k < |code'| ensures Threaded(code', k) {
      if k < i {
        assert Threaded(code, k);
      } else if k == i {
        if HasLabel(code[i]) {
          AtBound(code, i + code[i].off, b);
        } else if code[i].IJmp? {
          AtBound(code, i, b);
          TargetInside(code, i, b);
          var ft := FinalTarget(code, i, b);
          if Commits(code[ft]) { AtBound(code, ft + code[ft].off, b); }
        }
      }
    }
  }
}
