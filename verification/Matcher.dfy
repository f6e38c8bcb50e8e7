module Matcher {
  /** The interpreter loop of the matching machine. */

  import opened Peg
  import opened Machine

  /** Runs `code` on `s` from position `i`.  `bound` is the length of a run that halts: the C loop
      has no bound, and `Lpeg` shows that one exists for compiled patterns.  None of the assertions
      of the loop can fail, as they would get the machine stuck. */
  method Match(code: Code, s: Subject, i: nat, ghost bound: nat) returns (r: Option<nat>)
    requires i <= |s| && Steps(code, s, Start(i), bound).Halted?
    ensures Steps(code, s, Start(i), bound) == Halted(r)
  {
    hide Steps, Backtrack, SpanEnd;
    var p, pos, stk := 0, i, Choice(GIVEUP, i, Base);
    ghost var left := bound;
    ghost var goal := Steps(code, s, Start(i), bound);
    while true
      invariant Steps(code, s, Run(p, pos, stk), left) == goal
      decreases left
    {
      ghost var st := Run(p, pos, stk);
      LiveState(code, s, st, left);
      if p == GIVEUP {
        HaltedSoon(code, s, st, left);
        return None;
      }
      var failed := false;
      match code[p] {
        case IEnd =>
          HaltedSoon(code, s, st, left);
          return Some(pos);
        case IRet => p, stk := stk.ret, stk.below;
        case IAny =>
          if pos < |s| { p, pos := p + 1, pos + 1; } else { failed := true; }
        case ITestAny(off) =>
          if pos < |s| { p := p + 2; } else { p := p + off; }
        case IChar(c) =>
          if pos < |s| && s[pos] == c { p, pos := p + 1, pos + 1; } else { failed := true; }
        case ITestChar(c, off) =>
          if pos < |s| && s[pos] == c { p := p + 2; } else { p := p + off; }
        case ISet(cs) =>
          if pos < |s| && s[pos] in cs { p, pos := p + CHARSETINSTSIZE, pos + 1; } else { failed := true; }
        case ITestSet(cs, off) =>
          if pos < |s| && s[pos] in cs { p := p + 1 + CHARSETINSTSIZE; } else { p := p + off; }
        case IBehind(n) =>
          if n > pos { failed := true; } else { p, pos := p + 1, pos - n; }
        case ISpan(cs) =>
          pos := Span(s, pos, cs);
          p := p + CHARSETINSTSIZE;
        case IJmp(off) => p := p + off;
        case IChoice(off) => p, stk := p + 2, Choice(p + off, pos, stk);
        case ICall(off) => p, stk := p + off, Call(p + 2, stk);
        case ICommit(off) => p, stk := p + off, stk.below;
        case IPartialCommit(off) => p, stk := p + off, Choice(stk.alt, pos, stk.below);
        case IBackCommit(off) => p, pos, stk := p + off, stk.pos, stk.below;
        case IFailTwice =>
          stk := stk.below;
          failed := true;
        case IFail => failed := true;
      }
      if failed { p, pos, stk := DropCalls(stk); }
      left := left - 1;
    }
  }

  /** A state from which the run halts within `n` steps is not stuck, and neither is the next one. */
  lemma LiveState(code: Code, s: Subject, st: State, n: nat)
    requires st.Run? && Steps(code, s, st, n).Halted?
    ensures n > 0 && !Step(code, s, st).Stuck?
    ensures Steps(code, s, Step(code, s, st), n - 1) == Steps(code, s, st, n)
  {
    if Step(code, s, st).Stuck? { StepsFromFinal(code, s, Stuck, n - 1); }
  }

  lemma HaltedSoon(code: Code, s: Subject, st: State, n: nat)
    requires Step(code, s, st).Halted? && n > 0
    ensures Steps(code, s, st, n) == Step(code, s, st)
  {
    StepsFromFinal(code, s, Step(code, s, st), n - 1);
  }

  method Span(s: Subject, i: nat, cs: Charset) returns (j: nat)
    ensures j == SpanEnd(s, i, cs)
  {
    j := i;
    while j < |s| && s[j] in cs
      invariant i <= j && SpanEnd(s, j, cs) == SpanEnd(s, i, cs)
    {
      j := j + 1;
    }
  }

  /** A failure: pending calls are dropped, and the newest choice is resumed. */
  method DropCalls(stk: Stack) returns (p: int, pos: nat, below: Stack)
    requires !Backtrack(stk).Stuck?
    ensures Backtrack(stk) == Run(p, pos, below)
  {
    var rest := stk;
    while rest.Call?
      invariant Backtrack(rest) == Backtrack(stk) && rest != Base
      decreases rest
    {
      rest := rest.below;
    }
    p, pos, below := rest.alt, rest.pos, rest.below;
  }
}
