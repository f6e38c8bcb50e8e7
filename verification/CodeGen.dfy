module CodeGen {
  /**
   The code that the compiler emits for a tree, as a function of the tree.

   All offsets are relative to the head of their instruction, so the code of a tree does not depend
   on where it is placed.  `Compiler` shows that the in-place generator emits exactly this code.
   */

  import opened Peg
  import opened Analysis
  import opened Machine

  /** `main`: outside the grammar's rules.  `asWritten`: with the loop body of a test-guarded
      repetition compiled under the `opt` of the repetition, as the C text has it; otherwise that
      body is compiled without `opt`. */
  datatype Mode = Mode(g: Grammar, main: bool, asWritten: bool)

  /** Trees that the pattern constructors can build.  (They also refuse a look-behind of which the length
      depends on that of a rule, as they do not know the rules yet.) */
  predicate WellFormed(g: Grammar, t: Tree, main: bool) {
    match t
    case TRep(p) => WellFormed(g, p, main)
    case TSeq(p1, p2) => WellFormed(g, p1, main) && WellFormed(g, p2, main)
    case TChoice(p1, p2) => WellFormed(g, p1, main) && WellFormed(g, p2, main)
    case TNot(p) => WellFormed(g, p, main)
    case TAnd(p) => WellFormed(g, p, main)
    case TBehind(n, p) => 0 < n <= MAXBEHIND && FixedLen(g, p) == n && WellFormed(g, p, main)
    case TCall(k) => !main && k < |g|
    case TGrammar => main && 0 < |g|
    case _ => true
  }

  predicate WellFormedRules(g: Grammar) { forall k :: 0 <= k < |g| ==> WellFormed(g, g[k], false) }

  // ----- instructions

  function Pads(n: nat): Code { seq(n, _ => Pad) }

  function Emit(ins: Instr): (c: Code)
    ensures |c| == Size(ins) && c[0] == ins
  {
    [ins] + Pads(Size(ins) - 1)
  }

  datatype SetType = EmptySet | Single(c: Byte) | Full | Other

  function CharsetType(cs: Charset): (r: SetType)
    ensures r.EmptySet? <==> cs == {}
    ensures r.Single? ==> cs == {r.c}
    ensures r.Full? ==> cs == FULLSET
  {
    if cs == {} then EmptySet
    else if exists c :: c in cs && cs == {c} then (var c :| c in cs && cs == {c}; Single(c))
    else if cs == FULLSET then Full
    else Other
  }

  /** What is known of the test that protects some code. */
  datatype Test = NoTest | CharTest(c: Byte) | SetTest(cs: Charset) | OtherTest

  function CodeChar(c: Byte, tt: Test): Code {
    if tt == CharTest(c) then Emit(IAny) else Emit(IChar(c))
  }

  function CodeCharset(cs: Charset, tt: Test): Code {
    match CharsetType(cs)
    case Single(c) => CodeChar(c, tt)
    case Other => if tt == SetTest(cs) then Emit(IAny) else Emit(ISet(cs))
    case EmptySet => Emit(IFail)
    case Full => Emit(IAny)
  }

  function TestInstr(cs: Charset, off: int): Instr {
    match CharsetType(cs)
    case EmptySet => IJmp(off)
    case Full => ITestAny(off)
    case Single(c) => ITestChar(c, off)
    case Other => ITestSet(cs, off)
  }

  function TestSize(cs: Charset, e: bool): nat { if e then 0 else Size(TestInstr(cs, 0)) }

  /** Test for `cs`, jumping to `off` when it fails; nothing if the empty string must be accepted. */
  function CodeTest(cs: Charset, e: bool, off: int): (c: Code)
    ensures |c| == TestSize(cs, e)
  {
    if e then [] else Emit(TestInstr(cs, off))
  }

  function TestOf(cs: Charset, e: bool): Test {
    if e then NoTest else
    match CharsetType(cs)
    case Single(c) => CharTest(c)
    case Other => SetTest(cs)
    case _ => OtherTest
  }

  // ----- trees

  /** Whether a choice is coded with a test alone. */
  predicate TestedChoice(m: Mode, p1: Tree, p2: Tree, fl: Charset) {
    var f1 := First(m.g, p1, FULLSET, DEPTH);
    HeadFail(m.g, p1, DEPTH) || (!f1.e && f1.cs !! First(m.g, p2, fl, DEPTH).cs)
  }

  /** Whether a repetition is coded with a test alone. */
  predicate TestedLoop(m: Mode, p: Tree, fl: Charset) {
    var f := First(m.g, p, FULLSET, DEPTH);
    HeadFail(m.g, p, DEPTH) || (!f.e && f.cs !! fl)
  }

  function SeqFollow(m: Mode, p1: Tree, p2: Tree, fl: Charset): Charset {
    if NeedFollow(p1) then First(m.g, p2, fl, DEPTH).cs else FULLSET
  }

  function SeqTest(m: Mode, p1: Tree, tt: Test): Test {
    if FixedLen(m.g, p1) != 0 then NoTest else tt
  }

  function JmpOver(p2: Tree, n: nat): Code {
    if p2.TTrue? then [] else Emit(IJmp(2 + n))
  }

  function BehindCode(n: nat): Code {
    if n > 0 then Emit(IBehind(n)) else []
  }

  /** The rules are compiled inside the main tree. */
  function Level(m: Mode): nat { if m.main then 2 else 0 }

  /** `opt`: the code ends where the newest choice resumes.  `tt`: the test protecting the code.
      `fl`: what can follow a match. */
  ghost function Gen(m: Mode, t: Tree, opt: bool, tt: Test, fl: Charset): Code
    decreases Level(m), t, 1
  {
    match t
    case TChar(c) => CodeChar(c, tt)
    case TAny => Emit(IAny)
    case TSet(cs) => CodeCharset(cs, tt)
    case TTrue => []
    case TFalse => Emit(IFail)
    case TChoice(p1, p2) => GenChoice(m, p1, p2, opt, fl)
    case TRep(p) => GenRep(m, p, opt, fl)
    case TBehind(n, p) => BehindCode(n) + Gen(m, p, false, NoTest, FULLSET)
    case TNot(p) => GenNot(m, p)
    case TAnd(p) => GenAnd(m, p, tt)
    case TSeq(p1, p2) =>
      Gen(m, p1, false, tt, SeqFollow(m, p1, p2, fl)) + Gen(m, p2, opt, SeqTest(m, p1, tt), fl)
    case TCall(k) => Emit(IOpenCall(k))
    case TGrammar => if m.main then GrammarCode(m.(main := false)) else []
  }

  ghost function GenChoice(m: Mode, p1: Tree, p2: Tree, opt: bool, fl: Charset): Code
    decreases Level(m), TChoice(p1, p2), 0
  {
    var f1 := First(m.g, p1, FULLSET, DEPTH);
    if TestedChoice(m, p1, p2, fl) then
      var c1 := Gen(m, p1, false, TestOf(f1.cs, false), fl);
      var c2 := Gen(m, p2, opt, NoTest, fl);
      var jmp := JmpOver(p2, |c2|);
      CodeTest(f1.cs, false, TestSize(f1.cs, false) + |c1| + |jmp|) + c1 + jmp + c2
    else if opt && p2.TTrue? then
      Emit(IPartialCommit(2)) + Gen(m, p1, true, NoTest, FULLSET)
    else
      var c1 := Gen(m, p1, p2.TTrue?, TestOf(f1.cs, f1.e), FULLSET);
      var c2 := Gen(m, p2, opt, NoTest, fl);
      CodeTest(f1.cs, f1.e, TestSize(f1.cs, f1.e) + 4 + |c1|)
        + Emit(IChoice(4 + |c1|)) + c1 + Emit(ICommit(2 + |c2|)) + c2
  }

  ghost function GenRep(m: Mode, p: Tree, opt: bool, fl: Charset): Code
    decreases Level(m), TRep(p), 0
  {
    if ToCharset(p).Some? then Emit(ISpan(ToCharset(p).value))
    else
      var f := First(m.g, p, FULLSET, DEPTH);
      if TestedLoop(m, p, fl) then
        var c := Gen(m, p, m.asWritten && opt, TestOf(f.cs, false), FULLSET);
        var sz := TestSize(f.cs, false);
        CodeTest(f.cs, false, sz + |c| + 2) + c + Emit(IJmp(-(sz + |c|)))
      else
        var c := Gen(m, p, false, NoTest, FULLSET);
        CodeTest(f.cs, f.e, TestSize(f.cs, f.e) + 4 + |c|)
          + (if opt then Emit(IPartialCommit(2)) else Emit(IChoice(4 + |c|)))
          + c + Emit(IPartialCommit(-|c|))
  }

  ghost function GenNot(m: Mode, p: Tree): Code
    decreases Level(m), TNot(p), 0
  {
    var f := First(m.g, p, FULLSET, DEPTH);
    if HeadFail(m.g, p, DEPTH) then
      CodeTest(f.cs, f.e, TestSize(f.cs, f.e) + 1) + Emit(IFail)
    else
      var c := Gen(m, p, false, NoTest, FULLSET);
      CodeTest(f.cs, f.e, TestSize(f.cs, f.e) + 2 + |c| + 1)
        + Emit(IChoice(2 + |c| + 1)) + c + Emit(IFailTwice)
  }

  ghost function GenAnd(m: Mode, p: Tree, tt: Test): Code
    decreases Level(m), TAnd(p), 0
  {
    var n := FixedLen(m.g, p);
    var c := Gen(m, p, false, tt, FULLSET);
    if 0 <= n <= MAXBEHIND then c + BehindCode(n)
    else Emit(IChoice(2 + |c| + 2)) + c + Emit(IBackCommit(3)) + Emit(IFail)
  }

  // ----- the grammar

  ghost function RuleCode(m: Mode, k: nat): Code
    requires k < |m.g| && !m.main
    decreases 1, TGrammar, 2
  {
    Gen(m, m.g[k], false, NoTest, FULLSET) + Emit(IRet)
  }

  /** Code of the first `n` rules, with open calls. */
  ghost function RulesCode(m: Mode, n: nat): Code
    requires n <= |m.g| && !m.main
    decreases 1, TGrammar, 3, n
  {
    if n == 0 then [] else RulesCode(m, n - 1) + RuleCode(m, n - 1)
  }

  ghost function RuleStart(m: Mode, k: nat): nat
    requires k <= |m.g| && !m.main
    decreases 1, TGrammar, 4
  {
    |RulesCode(m, k)|
  }

  /** Where at most `n` plain jumps from `i` lead. */
  function FinalTarget(code: Code, i: int, n: nat): int
    decreases n
  {
    if n > 0 && 0 <= i < |code| && code[i].IJmp? then FinalTarget(code, i + code[i].off, n - 1) else i
  }

  /** Plain jumps lead from `i` to a return. */
  ghost predicate LeadsToRet(code: Code, i: int) {
    exists n: nat :: var t := FinalTarget(code, i, n); 0 <= t < |code| && code[t].IRet?
  }

  /** An open call at `k` turned into a call of its rule, or into a jump when only jumps separate
      its continuation from a return. */
  ghost function CorrectCall(m: Mode, raw: Code, k: nat): Instr
    requires k < |raw| && !m.main
    decreases 1, TGrammar, 5
  {
    if raw[k].IOpenCall? && raw[k].rule < |m.g| then
      var off := RuleStart(m, raw[k].rule) - k;
      if LeadsToRet(raw, k + 2) then IJmp(off) else ICall(off)
    else raw[k]
  }

  ghost function CorrectCalls(m: Mode, raw: Code): Code
    requires !m.main
    decreases 1, TGrammar, 6
  {
    seq(|raw|, k requires 0 <= k < |raw| => CorrectCall(m, raw, k))
  }

  ghost function GrammarCode(m: Mode): Code
    requires !m.main
    decreases 1, TGrammar, 7
  {
    var raw := RulesCode(m, |m.g|);
    Emit(ICall(4)) + Emit(IJmp(2 + |raw|)) + CorrectCalls(m, raw)
  }

  /** Code of a whole pattern, before the peephole pass. */
  ghost function PatternCode(g: Grammar, t: Tree, asWritten: bool): Code {
    Gen(Mode(g, true, asWritten), t, false, NoTest, FULLSET) + Emit(IEnd)
  }

  lemma SharedChoiceCode(m: Mode, p1: Tree, fl: Charset)
    requires !TestedChoice(m, p1, TTrue, fl)
    ensures GenChoice(m, p1, TTrue, true, fl) == Emit(IPartialCommit(2)) + Gen(m, p1, true, NoTest, FULLSET)
  {
    hide First, TestedChoice, Gen, Emit;
  }

  // ----- loops compiled under `opt`

  /** Whether the code of `t` changes under `opt`, to reuse the choice already on the stack. */
  predicate Shares(m: Mode, t: Tree, fl: Charset) {
    match t
    case TChoice(p1, p2) => (p2.TTrue? && !TestedChoice(m, p1, p2, fl)) || Shares(m, p2, fl)
    case TRep(p) =>
      ToCharset(p).None? && (if TestedLoop(m, p, fl) then m.asWritten && Shares(m, p, FULLSET) else true)
    case TSeq(_, p2) => Shares(m, p2, fl)
    case _ => false
  }

  lemma SameChoiceUnderOpt(m: Mode, p1: Tree, p2: Tree, fl: Charset)
    requires !p2.TTrue? || TestedChoice(m, p1, p2, fl)
    requires Gen(m, p2, true, NoTest, fl) == Gen(m, p2, false, NoTest, fl)
    ensures GenChoice(m, p1, p2, true, fl) == GenChoice(m, p1, p2, false, fl)
  {
    hide First, CodeTest, Emit, TestedChoice, Gen;
  }

  lemma SameRepUnderOpt(m: Mode, p: Tree, fl: Charset)
    requires ToCharset(p).None? ==> TestedLoop(m, p, fl)
    requires var tt := TestOf(First(m.g, p, FULLSET, DEPTH).cs, false);
             ToCharset(p).None? && m.asWritten ==> Gen(m, p, true, tt, FULLSET) == Gen(m, p, false, tt, FULLSET)
    ensures GenRep(m, p, true, fl) == GenRep(m, p, false, fl)
  {
    hide First, CodeTest, Emit, TestedLoop, Gen, ToCharset;
  }

  lemma {:induction false} SameCodeUnderOpt(m: Mode, t: Tree, tt: Test, fl: Charset)
    requires !Shares(m, t, fl)
    ensures Gen(m, t, true, tt, fl) == Gen(m, t, false, tt, fl)
  {
    hide First, HeadFail, FixedLen, TestedChoice, TestedLoop, SeqFollow, SeqTest, GenChoice, GenRep, GenNot, GenAnd;
    hide CodeChar, CodeCharset, BehindCode, GrammarCode;
    match t
    case TChoice(p1, p2) =>
      SameCodeUnderOpt(m, p2, NoTest, fl);
      SameChoiceUnderOpt(m, p1, p2, fl);
    case TRep(p) =>
      if ToCharset(p).None? && m.asWritten {
        SameCodeUnderOpt(m, p, TestOf(First(m.g, p, FULLSET, DEPTH).cs, false), FULLSET);
      }
      SameRepUnderOpt(m, p, fl);
    case TSeq(p1, p2) => SameCodeUnderOpt(m, p2, SeqTest(m, p1, tt), fl);
    case _ =>
  }

  /** No test-guarded loop is compiled under `opt` with a body that reuses the enclosing choice. */
  predicate LoopsSafe(m: Mode, t: Tree, opt: bool, fl: Charset) {
    match t
    case TChoice(p1, p2) =>
      if TestedChoice(m, p1, p2, fl) then LoopsSafe(m, p1, false, fl) && LoopsSafe(m, p2, opt, fl)
      else if opt && p2.TTrue? then LoopsSafe(m, p1, true, FULLSET)
      else LoopsSafe(m, p1, p2.TTrue?, FULLSET) && LoopsSafe(m, p2, opt, fl)
    case TRep(p) =>
      ToCharset(p).Some?
      || (LoopsSafe(m, p, false, FULLSET)
          && (m.asWritten && opt && TestedLoop(m, p, fl) ==> !Shares(m, p, FULLSET)))
    case TSeq(p1, p2) => LoopsSafe(m, p1, false, SeqFollow(m, p1, p2, fl)) && LoopsSafe(m, p2, opt, fl)
    case TNot(p) => HeadFail(m.g, p, DEPTH) || LoopsSafe(m, p, false, FULLSET)
    case TAnd(p) => LoopsSafe(m, p, false, FULLSET)
    case TBehind(_, p) => LoopsSafe(m, p, false, FULLSET)
    case _ => true
  }

  predicate RulesSafe(m: Mode) {
    forall k :: 0 <= k < |m.g| ==> LoopsSafe(m, m.g[k], false, FULLSET)
  }

  lemma {:induction false} RepairedLoopsAreSafe(m: Mode, t: Tree, opt: bool, fl: Charset)
    requires !m.asWritten
    ensures LoopsSafe(m, t, opt, fl)
  {
    match t
    case TChoice(p1, p2) =>
      RepairedLoopsAreSafe(m, p1, false, fl);
      RepairedLoopsAreSafe(m, p1, true, FULLSET);
      RepairedLoopsAreSafe(m, p1, false, FULLSET);
      RepairedLoopsAreSafe(m, p2, opt, fl);
    case TRep(p) => RepairedLoopsAreSafe(m, p, false, FULLSET);
    case TSeq(p1, p2) =>
      RepairedLoopsAreSafe(m, p1, false, SeqFollow(m, p1, p2, fl));
      RepairedLoopsAreSafe(m, p2, opt, fl);
    case TNot(p) => RepairedLoopsAreSafe(m, p, false, FULLSET);
    case TAnd(p) => RepairedLoopsAreSafe(m, p, false, FULLSET);
    case TBehind(_, p) => RepairedLoopsAreSafe(m, p, false, FULLSET);
    case _ =>
  }
}
