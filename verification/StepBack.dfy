/**
 The step back of the last pass, as the C text has it, can land on a word of a character set that
 reads as an opcode: an accepted pattern on whose code the pass leaves the code array.
 */
module StepBack {
  import opened Peg
  import opened Analysis
  import opened Machine
  import opened CodeGen
  import opened Peephole
  import opened LiteralPass
  import opened VerifyGrammar
  import opened Termination

  const A: Byte := 97
  const C: Byte := 99
  const ACCENTS: Charset := {225, 235}
  const STARTS: Charset := {C, A}

  /** 'c' [\xE1\xEB] */
  const PAIR := TSeq(TChar(C), TSet(ACCENTS))
  /** PAIR + 'a' */
  const BODY := TChoice(PAIR, TChar(A))
  const PATTERN := TRep(BODY)

  const M := Mode([], true, true)

  const FILL: Code := [Pad, Pad, Pad, Pad, Pad, Pad, Pad, Pad]

  const BODYCODE: Code :=
    [ITestChar(C, 14), Pad, IAny] + ([ISet(ACCENTS)] + FILL) + [IJmp(3), Pad] + [IChar(A)]

  const CODE: Code :=
    ([ITestSet(STARTS, 29), Pad] + FILL) + [IChoice(19), Pad] + BODYCODE + [IPartialCommit(-15), Pad] + [IEnd]

  // ----- the code of the pattern

  lemma Types()
    ensures CharsetType({C}) == Single(C) && CharsetType({A}) == Single(A)
    ensures CharsetType(ACCENTS) == Other && CharsetType(STARTS) == Other
    ensures !(STARTS !! FULLSET) && {C} !! {A}
  {
    var a: Byte, e: Byte, z: Byte := 225, 235, 0;
    assert a in ACCENTS && e in ACCENTS && z !in ACCENTS;
    assert C in STARTS && A in STARTS && z !in STARTS;
    FullHasAll(z);
    FullHasAll(C);
    assert C in STARTS * FULLSET;
    assert C in {C} && A in {A};
  }

  lemma BodyAnalysis()
    ensures First([], PAIR, FULLSET, DEPTH) == FirstSet(false, {C})
    ensures First([], TChar(A), FULLSET, DEPTH) == FirstSet(false, {A})
    ensures First([], BODY, FULLSET, DEPTH) == FirstSet(false, STARTS)
    ensures !HeadFail([], PAIR, DEPTH) && !HeadFail([], BODY, DEPTH)
    ensures FixedLen([], TChar(C)) == 1
  {
    assert !CheckAux([], TSet(ACCENTS), PEnofail, DEPTH, false);
    assert !CheckAux([], TChar(C), PEnullable, DEPTH, true);
    assert First([], TChar(C), FULLSET, DEPTH) == FirstSet(false, {C});
    assert {C} + {A} == STARTS;
  }

  lemma Emitted()
    ensures Emit(ISet(ACCENTS)) == [ISet(ACCENTS)] + FILL
    ensures Emit(ITestSet(STARTS, 29)) == [ITestSet(STARTS, 29), Pad] + FILL
    ensures Emit(ITestChar(C, 14)) == [ITestChar(C, 14), Pad] && Emit(IJmp(3)) == [IJmp(3), Pad]
    ensures Emit(IChoice(19)) == [IChoice(19), Pad] && Emit(IPartialCommit(-15)) == [IPartialCommit(-15), Pad]
    ensures Emit(IAny) == [IAny] && Emit(IChar(A)) == [IChar(A)] && Emit(IEnd) == [IEnd]
  {
  }

  lemma PairCode()
    ensures Gen(M, PAIR, false, CharTest(C), FULLSET) == [IAny] + ([ISet(ACCENTS)] + FILL)
  {
    hide First, HeadFail, FixedLen, CharsetType, Emit;
    Types();
    BodyAnalysis();
    Emitted();
    var fl := SeqFollow(M, TChar(C), TSet(ACCENTS), FULLSET);
    assert Gen(M, TChar(C), false, CharTest(C), fl) == [IAny];
    assert Gen(M, TSet(ACCENTS), false, NoTest, FULLSET) == [ISet(ACCENTS)] + FILL;
  }

  lemma ChoiceParts()
    ensures TestedChoice(M, PAIR, TChar(A), FULLSET) && TestSize({C}, false) == 2
    ensures CodeTest({C}, false, 14) == Emit(ITestChar(C, 14)) && TestOf({C}, false) == CharTest(C)
    ensures Gen(M, TChar(A), false, NoTest, FULLSET) == [IChar(A)]
    ensures Gen(M, BODY, false, NoTest, FULLSET) == GenChoice(M, PAIR, TChar(A), false, FULLSET)
  {
    TestedPair();
    hide First, HeadFail, CharsetType, GenChoice, TestedChoice;
    Types();
    Emitted();
  }

  lemma TestedPair()
    ensures TestedChoice(M, PAIR, TChar(A), FULLSET)
  {
    hide First, HeadFail;
    Types();
    BodyAnalysis();
  }

  lemma ChoiceCode()
    ensures Gen(M, BODY, false, NoTest, FULLSET) == BODYCODE
  {
    hide First, HeadFail, FixedLen, CharsetType, Emit, Gen;
    Types();
    BodyAnalysis();
    Emitted();
    PairCode();
    ChoiceParts();
    assert GenChoice(M, PAIR, TChar(A), false, FULLSET)
        == [ITestChar(C, 14), Pad] + ([IAny] + ([ISet(ACCENTS)] + FILL)) + [IJmp(3), Pad] + [IChar(A)];
  }

  lemma LoopCode()
    ensures PatternCode([], PATTERN, true) == CODE
  {
    hide First, HeadFail, FixedLen, CharsetType, Emit, GenChoice;
    Types();
    BodyAnalysis();
    Emitted();
    ChoiceCode();
    assert TestSize(STARTS, false) == 10;
    assert CodeTest(STARTS, false, 29) == [ITestSet(STARTS, 29), Pad] + FILL;
    assert Gen(M, PATTERN, false, NoTest, FULLSET)
        == ([ITestSet(STARTS, 29), Pad] + FILL) + [IChoice(19), Pad] + BODYCODE + [IPartialCommit(-15), Pad];
  }

  // ----- the pass on this code

  lemma CodeAt()
    ensures |CODE| == 30
    ensures CODE[0] == ITestSet(STARTS, 29) && CODE[10] == IChoice(19) && CODE[12] == ITestChar(C, 14)
    ensures CODE[14] == IAny && CODE[15] == ISet(ACCENTS) && CODE[24] == IJmp(3) && CODE[26] == IChar(A)
    ensures CODE[27] == IPartialCommit(-15) && CODE[29] == IEnd
    ensures forall k :: 0 <= k < 30 && k !in {0, 10, 12, 14, 15, 24, 26, 27, 29} ==> CODE[k] == Pad
  {
  }

  lemma NoChains()
    ensures NoJumpCycle(CODE, 1)
  {
    hide CODE;
    CodeAt();
    forall i: int ensures Settled(CODE, FinalTarget(CODE, i, 1)) {
      if i == 24 { assert FinalTarget(CODE, 24, 1) == FinalTarget(CODE, 27, 0); }
    }
  }

  /** Up to the jump the pass changes nothing. */
  lemma EarlyVisit(i: nat, bigEndian: bool)
    requires i in {0, 10, 12, 14, 15}
    ensures Rewrite(CODE, i, 1) == CODE
    ensures NextSlot(CODE, CODE, i, 1, bigEndian) == i + Size(CODE[i])
  {
    hide CODE;
    CodeAt();
    var t := if i == 0 || i == 10 then 29 else 26;
    assert FinalTarget(CODE, t, 1) == t;
  }

  const LEFT: Code := CODE[24 := IPartialCommit(-12)]

  lemma JumpVisit()
    ensures Rewrite(CODE, 24, 1) == LEFT && Becomes(CODE, 24, 1)
  {
    hide CODE;
    CodeAt();
    assert FinalTarget(CODE, 24, 1) == FinalTarget(CODE, 27, 0);
    assert FinalTarget(CODE, 12, 1) == 12;
  }

  /** The last word of the set begins with the byte 2, as the opcode of a set instruction does. */
  lemma WordBefore(bigEndian: bool)
    ensures FirstByte(LEFT, 23, bigEndian) == 2
  {
    hide CODE;
    CodeAt();
    OwnerBefore(23);
    SetWord();
  }

  lemma {:induction false} OwnerBefore(k: nat)
    requires 15 <= k <= 23
    ensures Owner(LEFT, k) == 15
  {
    hide CODE;
    CodeAt();
    if k > 15 { OwnerBefore(k - 1); }
  }

  lemma SetWord()
    ensures SetByte(ACCENTS, 28) == 2
  {
    var c0: Byte, c1: Byte, c2: Byte, c3: Byte := 224, 225, 226, 227;
    var c4: Byte, c5: Byte, c6: Byte, c7: Byte := 228, 229, 230, 231;
    assert c1 in ACCENTS && c0 !in ACCENTS && c2 !in ACCENTS && c3 !in ACCENTS;
    assert c4 !in ACCENTS && c5 !in ACCENTS && c6 !in ACCENTS && c7 !in ACCENTS;
  }

  lemma Walk(bigEndian: bool)
    ensures LiteralWalk(CODE, 0, 1, bigEndian) == (LEFT, [0, 10, 12, 14, 15, 24, 32])
  {
    hide CODE, Rewrite, FirstByte, Becomes;
    CodeAt();
    WordBefore(bigEndian);
    JumpVisit();
    EarlyVisit(0, bigEndian);
    EarlyVisit(10, bigEndian);
    EarlyVisit(12, bigEndian);
    EarlyVisit(14, bigEndian);
    EarlyVisit(15, bigEndian);
    assert LiteralWalk(LEFT, 32, 1, bigEndian) == (LEFT, [32]);
    assert NextSlot(CODE, LEFT, 24, 1, bigEndian) == 32;
    Visit(CODE, 24, LEFT, 32, bigEndian);
    Visit(CODE, 15, CODE, 24, bigEndian);
    Visit(CODE, 14, CODE, 15, bigEndian);
    Visit(CODE, 12, CODE, 14, bigEndian);
    Visit(CODE, 10, CODE, 12, bigEndian);
    Visit(CODE, 0, CODE, 10, bigEndian);
    assert [0] + ([10] + ([12] + ([14] + ([15] + ([24] + [32]))))) == [0, 10, 12, 14, 15, 24, 32];
  }

  lemma Visit(code: Code, i: nat, after: Code, next: int, bigEndian: bool)
    requires i < |code| && !code[i].Pad? && Rewrite(code, i, 1) == after
    requires NextSlot(code, after, i, 1, bigEndian) == next && i <= next
    ensures var (left, visited) := LiteralWalk(after, next, 1, bigEndian);
            LiteralWalk(code, i, 1, bigEndian) == (left, [i] + visited)
  {
    hide Rewrite, FirstByte, Becomes;
  }

  lemma Accepted()
    ensures AcceptedPattern([], PATTERN)
  {
    forall d: nat ensures !CheckAux([], BODY, PEnullable, d, false) {
      assert !CheckAux([], TChar(C), PEnullable, d, false);
      assert !CheckAux([], PAIR, PEnullable, d, false);
    }
    assert FixedLen([], TChar(C)) == 1 by { BodyAnalysis(); }
    assert NoEmptyLoop([], TChar(A)) && NoEmptyLoop([], PAIR);
    assert NoEmptyLoop([], BODY);
    assert NoEmptyLoop([], PATTERN);
    assert WellFormed([], PAIR, true) && WellFormed([], BODY, true);
  }

  lemma Safe()
    ensures LoopsSafe(M, PATTERN, false, FULLSET)
  {
    hide TestedLoop, TestedChoice, HeadFail, First;
    assert LoopsSafe(M, TChar(A), false, FULLSET);
    assert LoopsSafe(M, PAIR, false, FULLSET);
    assert LoopsSafe(M, BODY, false, FULLSET);
  }

  lemma Outside(bigEndian: bool)
    ensures LiteralWalk(CODE, 0, 1, bigEndian).1 == [0, 10, 12, 14, 15, 24, 32]
    ensures !VisitsInstructions(CODE, 1, bigEndian)
  {
    hide LiteralWalk, CODE;
    CodeAt();
    Walk(bigEndian);
    var (left, visited) := LiteralWalk(CODE, 0, 1, bigEndian);
    assert visited[6] == 32 && 32 in visited;
    assert |left| == 30 && !Instruction(left, 0, 32);
  }

  /** The literal pass leaves the code of an accepted pattern whose loops share no choice: from the jump
      at slot 24, which became a partial commit, it goes to slot 32 of 30. */
  lemma LiteralPassLeavesCode(bigEndian: bool)
    ensures AcceptedPattern([], PATTERN) && LoopsSafe(M, PATTERN, false, FULLSET) && RulesSafe(M)
    ensures var code := PatternCode([], PATTERN, true);
            && |code| == 30 && NoJumpCycle(code, 1)
            && LiteralWalk(code, 0, 1, bigEndian).1 == [0, 10, 12, 14, 15, 24, 32]
            && !VisitsInstructions(code, 1, bigEndian)
  {
    hide LiteralWalk, NoJumpCycle, VisitsInstructions, PatternCode, CODE, AcceptedPattern, LoopsSafe;
    Accepted();
    Safe();
    LoopCode();
    CodeAt();
    NoChains();
    Outside(bigEndian);
    assert RulesSafe(M);
  }
}
