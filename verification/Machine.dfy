module Machine {
  /**
   The matching machine: instructions, one step, and whole runs.

   Addresses count code slots as in the C array: an instruction fills `Size` slots, its head and then
   `Pad` slots for the offset word and the character set.  The head carries the whole operand.
   */

  import opened Peg

  /** Slots of an instruction that carries a character set (32 bytes in 4-byte slots, and its head). */
  const CHARSETINSTSIZE := 9

  datatype Instr =
    | IAny
    | IChar(c: Byte)
    | ISet(cs: Charset)
    | ITestAny(off: int)
    | ITestChar(c: Byte, off: int)
    | ITestSet(cs: Charset, off: int)
    | ISpan(cs: Charset)
    | IBehind(n: nat)
    | IRet
    | IEnd
    | IChoice(off: int)
    | IJmp(off: int)
    | ICall(off: int)
    | IOpenCall(rule: nat)
    | ICommit(off: int)
    | IPartialCommit(off: int)
    | IBackCommit(off: int)
    | IFailTwice
    | IFail
    | Pad

  type Code = seq<Instr>

  function Size(ins: Instr): (n: nat)
    ensures n > 0
  {
    match ins
    case ISet(_) => CHARSETINSTSIZE
    case ISpan(_) => CHARSETINSTSIZE
    case ITestSet(_, _) => CHARSETINSTSIZE + 1
    case ITestChar(_, _) => 2
    case ITestAny(_) => 2
    case IChoice(_) => 2
    case IJmp(_) => 2
    case ICall(_) => 2
    case IOpenCall(_) => 2
    case ICommit(_) => 2
    case IPartialCommit(_) => 2
    case IBackCommit(_) => 2
    case _ => 1
  }

  /** The mixed stack of pending calls and backtrack choices, top first. */
  datatype Stack =
    | Base
    | Choice(alt: int, pos: nat, below: Stack)
    | Call(ret: int, below: Stack)

  /** `Stuck` is a violated assertion of the C machine. */
  datatype State =
    | Run(pc: int, pos: nat, stk: Stack)
    | Halted(result: Option<nat>)
    | Stuck

  /** Address of the pseudo instruction run when the last choice is gone. */
  const GIVEUP := -1

  /** The state after a failure: pending calls are dropped down to the newest choice. */
  function Backtrack(stk: Stack): State {
    match stk
    case Base => Stuck
    case Choice(alt, pos, below) => Run(alt, pos, below)
    case Call(_, below) => Backtrack(below)
  }

  /** End of the longest run of characters of `cs` that starts at `i`. */
  function SpanEnd(s: Subject, i: nat, cs: Charset): (j: nat)
    ensures i <= j && (i <= |s| ==> j <= |s|)
    ensures forall k :: i <= k < j ==> k < |s| && s[k] in cs
    ensures j < |s| ==> s[j] !in cs
    decreases |s| - i
  {
    if i < |s| && s[i] in cs then SpanEnd(s, i + 1, cs) else i
  }

  function Step(code: Code, s: Subject, st: State): State {
    match st
    case Halted(_) => st
    case Stuck => Stuck
    case Run(pc, i, stk) =>
      if pc == GIVEUP then (if stk == Base then Halted(None) else Stuck)
      else if pc < 0 || pc >= |code| then Stuck
      else
        match code[pc]
        case IAny => if i < |s| then Run(pc + 1, i + 1, stk) else Backtrack(stk)
        case IChar(c) => if i < |s| && s[i] == c then Run(pc + 1, i + 1, stk) else Backtrack(stk)
        case ISet(cs) =>
          if i < |s| && s[i] in cs then Run(pc + CHARSETINSTSIZE, i + 1, stk) else Backtrack(stk)
        case ITestAny(off) => if i < |s| then Run(pc + 2, i, stk) else Run(pc + off, i, stk)
        case ITestChar(c, off) => if i < |s| && s[i] == c then Run(pc + 2, i, stk) else Run(pc + off, i, stk)
        case ITestSet(cs, off) =>
          if i < |s| && s[i] in cs then Run(pc + 1 + CHARSETINSTSIZE, i, stk) else Run(pc + off, i, stk)
        case ISpan(cs) => Run(pc + CHARSETINSTSIZE, SpanEnd(s, i, cs), stk)
        case IBehind(n) => if n > i then Backtrack(stk) else Run(pc + 1, i - n, stk)
        case IRet => if stk.Call? then Run(stk.ret, i, stk.below) else Stuck
        case IEnd => if stk.Choice? && stk.below == Base then Halted(Some(i)) else Stuck
        case IChoice(off) => Run(pc + 2, i, Choice(pc + off, i, stk))
        case IJmp(off) => Run(pc + off, i, stk)
        case ICall(off) => Run(pc + off, i, Call(pc + 2, stk))
        case IOpenCall(_) => Stuck
        case ICommit(off) => if stk.Choice? then Run(pc + off, i, stk.below) else Stuck
        case IPartialCommit(off) =>
          if stk.Choice? then Run(pc + off, i, Choice(stk.alt, i, stk.below)) else Stuck
        case IBackCommit(off) => if stk.Choice? then Run(pc + off, stk.pos, stk.below) else Stuck
        case IFailTwice => if stk.Choice? then Backtrack(stk.below) else Stuck
        case IFail => Backtrack(stk)
        case Pad => Stuck
  }

  function Steps(code: Code, s: Subject, st: State, n: nat): State
    decreases n
  {
    if n == 0 then st else Steps(code, s, Step(code, s, st), n - 1)
  }

  /** Start of a match of the code at position `i`: only the giveup entry is on the stack. */
  function Start(i: nat): State { Run(0, i, Choice(GIVEUP, i, Base)) }

  lemma {:induction false} StepsAdd(code: Code, s: Subject, st: State, m: nat, n: nat)
    ensures Steps(code, s, st, m + n) == Steps(code, s, Steps(code, s, st, m), n)
    decreases m
  {
    if m > 0 { StepsAdd(code, s, Step(code, s, st), m - 1, n); }
  }

  lemma {:induction false} StepsFromFinal(code: Code, s: Subject, st: State, n: nat)
    requires !st.Run?
    ensures Steps(code, s, st, n) == st
  {
    if n > 0 { StepsFromFinal(code, s, st, n - 1); }
  }

  /** The runs from `a` and `b` meet.  As the machine is deterministic this is an equivalence. */
  ghost predicate Meet(code: Code, s: Subject, a: State, b: State) {
    exists m: nat, n: nat :: Steps(code, s, a, m) == Steps(code, s, b, n)
  }

  lemma MeetSelf(code: Code, s: Subject, a: State)
    ensures Meet(code, s, a, a)
  {
    assert Steps(code, s, a, 0) == Steps(code, s, a, 0);
  }

  lemma MeetStep(code: Code, s: Subject, a: State)
    ensures Meet(code, s, a, Step(code, s, a))
  {
    assert Steps(code, s, a, 1) == Steps(code, s, Step(code, s, a), 0);
  }

  lemma MeetSym(code: Code, s: Subject, a: State, b: State)
    requires Meet(code, s, a, b)
    ensures Meet(code, s, b, a)
  {
    var m: nat, n: nat :| Steps(code, s, a, m) == Steps(code, s, b, n);
    assert Steps(code, s, b, n) == Steps(code, s, a, m);
  }

  lemma MeetTrans(code: Code, s: Subject, a: State, b: State, c: State)
    requires Meet(code, s, a, b) && Meet(code, s, b, c)
    ensures Meet(code, s, a, c)
  {
    var m1: nat, n1: nat :| Steps(code, s, a, m1) == Steps(code, s, b, n1);
    var m2: nat, n2: nat :| Steps(code, s, b, m2) == Steps(code, s, c, n2);
    StepsAdd(code, s, a, m1, m2);
    StepsAdd(code, s, b, n1, m2);
    StepsAdd(code, s, b, m2, n1);
    StepsAdd(code, s, c, n2, n1);
    assert Steps(code, s, a, m1 + m2) == Steps(code, s, c, n2 + n1);
  }

  /** Two states with the same next state meet. */
  lemma MeetBySteps(code: Code, s: Subject, a: State, b: State)
    requires Step(code, s, a) == Step(code, s, b)
    ensures Meet(code, s, a, b)
  {
    assert Steps(code, s, a, 1) == Steps(code, s, b, 1);
  }

  lemma MeetHalted(code: Code, s: Subject, a: State, r: Option<nat>) returns (n: nat)
    requires Meet(code, s, a, Halted(r))
    ensures Steps(code, s, a, n) == Halted(r)
  {
    var m: nat, k: nat :| Steps(code, s, a, m) == Steps(code, s, Halted(r), k);
    StepsFromFinal(code, s, Halted(r), k);
    n := m;
  }

  /** A run that halts violates no assertion on the way. */
  lemma NeverStuck(code: Code, s: Subject, a: State, n: nat, k: nat)
    requires Steps(code, s, a, n).Halted?
    ensures !Steps(code, s, a, k).Stuck?
  {
    if Steps(code, s, a, k).Stuck? {
      StepsAdd(code, s, a, n, k);
      StepsAdd(code, s, a, k, n);
      StepsFromFinal(code, s, Steps(code, s, a, n), k);
      StepsFromFinal(code, s, Stuck, n);
    }
  }
}
