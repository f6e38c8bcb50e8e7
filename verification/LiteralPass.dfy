module LiteralPass {
  /**
   The last pass as the C text has it.  When a jump becomes a commit the text steps back by one slot
   and then forward by the size of the word it finds there, taking the first byte of that word for an
   opcode.  Here the first byte of every slot is modelled, and it is decided when the pass still
   visits exactly the instructions.
   */

  import opened Peg
  import opened Machine
  import opened CodeGen
  import opened Peephole

  // ----- the first byte of a slot

  function Opcode(ins: Instr): nat {
    match ins
    case IAny => 0
    case IChar(_) => 1
    case ISet(_) => 2
    case ITestAny(_) => 3
    case ITestChar(_, _) => 4
    case ITestSet(_, _) => 5
    case ISpan(_) => 6
    case IBehind(_) => 7
    case IRet => 8
    case IEnd => 9
    case IChoice(_) => 10
    case IJmp(_) => 11
    case ICall(_) => 12
    case IOpenCall(_) => 13
    case ICommit(_) => 14
    case IPartialCommit(_) => 15
    case IBackCommit(_) => 16
    case IFailTwice => 17
    case IFail => 18
    case Pad => 0
  }

  /** The size of an instruction by its opcode; any other byte counts one slot. */
  function SizeOfByte(b: nat): (n: nat)
    ensures n > 0
  {
    if b == 2 || b == 6 then CHARSETINSTSIZE
    else if b == 5 then CHARSETINSTSIZE + 1
    else if b == 3 || b == 4 || 10 <= b <= 16 then 2
    else 1
  }

  lemma OpcodeSize(ins: Instr)
    ensures SizeOfByte(Opcode(ins)) == Size(ins)
  {
  }

  function BitValue(cs: Charset, c: int, weight: nat): nat {
    if 0 <= c < 256 && c as Byte in cs then weight else 0
  }

  /** Byte `j` of the 32 bytes of a set. */
  function SetByte(cs: Charset, j: int): nat {
    BitValue(cs, 8 * j, 1) + BitValue(cs, 8 * j + 1, 2) + BitValue(cs, 8 * j + 2, 4) + BitValue(cs, 8 * j + 3, 8)
    + BitValue(cs, 8 * j + 4, 16) + BitValue(cs, 8 * j + 5, 32) + BitValue(cs, 8 * j + 6, 64)
    + BitValue(cs, 8 * j + 7, 128)
  }

  /** Bit `k` of byte `j` tells whether character `8 * j + k` is in the set. */
  lemma SetByteBits(cs: Charset, j: nat, k: nat)
    requires j < 32 && k < 8
    ensures SetByte(cs, j) / [1, 2, 4, 8, 16, 32, 64, 128][k] % 2 == BitValue(cs, 8 * j + k, 1)
  {
    var c := 8 * j;
    EightBits(SetByte(cs, j), BitValue(cs, c, 1), BitValue(cs, c + 1, 1), BitValue(cs, c + 2, 1),
      BitValue(cs, c + 3, 1), BitValue(cs, c + 4, 1), BitValue(cs, c + 5, 1), BitValue(cs, c + 6, 1),
      BitValue(cs, c + 7, 1));
    hide SetByte, BitValue;
  }

  lemma EightBits(s: nat, b0: nat, b1: nat, b2: nat, b3: nat, b4: nat, b5: nat, b6: nat, b7: nat)
    requires b0 < 2 && b1 < 2 && b2 < 2 && b3 < 2 && b4 < 2 && b5 < 2 && b6 < 2 && b7 < 2
    requires s == b0 + 2 * b1 + 4 * b2 + 8 * b3 + 16 * b4 + 32 * b5 + 64 * b6 + 128 * b7
    ensures s % 2 == b0 && s / 2 % 2 == b1 && s / 4 % 2 == b2 && s / 8 % 2 == b3
    ensures s / 16 % 2 == b4 && s / 32 % 2 == b5 && s / 64 % 2 == b6 && s / 128 % 2 == b7
  {
    assert s / 2 == b1 + 2 * (b2 + 2 * b3 + 4 * b4 + 8 * b5 + 16 * b6 + 32 * b7);
    assert s / 4 == b2 + 2 * (b3 + 2 * b4 + 4 * b5 + 8 * b6 + 16 * b7);
    assert s / 8 == b3 + 2 * (b4 + 2 * b5 + 4 * b6 + 8 * b7);
    assert s / 16 == b4 + 2 * (b5 + 2 * b6 + 4 * b7);
    assert s / 32 == b5 + 2 * (b6 + 2 * b7);
    assert s / 64 == b6 + 2 * b7;
    assert s / 128 == b7;
  }

  /** The first byte of an offset word of 32 bits. */
  function OffsetByte(off: int, bigEndian: bool): nat {
    if bigEndian then off / 0x1000000 % 0x100 else off % 0x100
  }

  /** It is the lowest byte of the two's complement of the offset, or the highest one. */
  lemma OffsetByteOf(off: int)
    ensures OffsetByte(off, false) == off % 0x1_0000_0000 % 0x100
    ensures OffsetByte(off, true) == off % 0x1_0000_0000 / 0x1000000
  {
  }

  /** The head of the instruction that slot `k` belongs to. */
  function Owner(code: Code, k: nat): (h: nat)
    requires k < |code|
    ensures h <= k && forall j :: h < j <= k ==> code[j].Pad?
    ensures !code[h].Pad? || h == 0
  {
    if code[k].Pad? && k > 0 then Owner(code, k - 1) else k
  }

  function FirstByte(code: Code, k: nat, bigEndian: bool): nat
    requires k < |code|
  {
    var h := Owner(code, k);
    if h == k then Opcode(code[k]) else
    match code[h]
    case ISet(cs) => SetByte(cs, 4 * (k - h - 1))
    case ISpan(cs) => SetByte(cs, 4 * (k - h - 1))
    case ITestSet(cs, off) => if k == h + 1 then OffsetByte(off, bigEndian) else SetByte(cs, 4 * (k - h - 2))
    case _ => if HasLabel(code[h]) || code[h].IJmp? then OffsetByte(code[h].off, bigEndian) else 0
  }

  // ----- the two passes

  /** Every instruction rewritten once, from slot `i` on. */
  function Optimized(code: Code, i: nat, b: nat): (c: Code)
    ensures |c| == |code|
    decreases |code| - i
  {
    if i >= |code| then code else Optimized(Rewrite(code, i, b), i + Size(code[i]), b)
  }

  /** The jump at slot `i` is rewritten to a commit. */
  predicate Becomes(code: Code, i: nat, b: nat)
    requires i < |code|
  {
    code[i].IJmp? && Commits(Rewrite(code, i, b)[i])
  }

  /** Where the literal pass goes after it has rewritten slot `i`, giving `after`.  Before the first slot
      it would read outside the code: -1. */
  function NextSlot(code: Code, after: Code, i: nat, b: nat, bigEndian: bool): (next: int)
    requires i < |code| == |after|
    ensures next >= i || (i == 0 && next == -1)
  {
    if !Becomes(code, i, b) then i + Size(after[i])
    else if i == 0 then -1
    else i - 1 + SizeOfByte(FirstByte(after, i - 1, bigEndian))
  }

  /** The literal pass from slot `i` on: the code it leaves and the slots it visits, the last one being
      where it stops.  It stops at the end, and where it would take the inside of an instruction for an
      instruction or leave the code. */
  function LiteralWalk(code: Code, i: int, b: nat, bigEndian: bool): (r: (Code, seq<int>))
    ensures |r.0| == |code|
    decreases |code| - i, if 0 <= i < |code| && code[i].IJmp? then 1 else 0
  {
    if !(0 <= i < |code|) || code[i].Pad? then (code, [i]) else
    var after := Rewrite(code, i, b);
    var next := NextSlot(code, after, i, b, bigEndian);
    if next < i then (after, [i, next]) else
    var r := LiteralWalk(after, next, b, bigEndian);
    (r.0, [i] + r.1)
  }

  /** The literal pass visits all instructions of the code that it leaves, ends after the last one, and
      visits nothing else. */
  ghost predicate VisitsInstructions(code: Code, b: nat, bigEndian: bool) {
    var (left, visited) := LiteralWalk(code, 0, b, bigEndian);
    forall k: int :: k in visited <==> Instruction(left, 0, k)
  }

  /** Slot `k`, from `i` on, begins an instruction, or is the end of the code. */
  predicate Instruction(code: Code, i: int, k: int) {
    k == |code| || (i <= k < |code| && 0 <= k && !code[k].Pad?)
  }

  /** Before every jump that becomes a commit there is a slot that begins with the opcode of an
      instruction of one slot, in the code that the pass leaves. */
  predicate CommitsAfterOneSlot(code: Code, b: nat, bigEndian: bool) {
    var c := Optimized(code, 0, b);
    forall i: nat :: i < |code| && code[i].IJmp? && Commits(c[i]) ==> OneSlotBefore(c, i, bigEndian)
  }

  predicate OneSlotBefore(code: Code, i: nat, bigEndian: bool)
    requires i < |code|
  {
    i > 0 && SizeOfByte(FirstByte(code, i - 1, bigEndian)) == 1
  }

  // ----- codes made of whole instructions

  ghost predicate Whole(code: Code, b: nat) {
    NoJumpCycle(code, b) && LabelsInside(code) && LaidOut(code, 0) && Owned(code)
  }

  lemma JumpSlots(code: Code, i: nat)
    requires LaidOut(code, 0) && i < |code|
    ensures i + Size(code[i]) <= |code| && forall j :: i < j < i + Size(code[i]) ==> code[j].Pad?
  {
    assert code[i] == code[i];
  }

  /** The slot after an instruction begins the next one. */
  lemma NextInstruction(code: Code, i: nat)
    requires LaidOut(code, 0) && Owned(code) && i < |code| && !code[i].Pad?
    ensures i + Size(code[i]) <= |code|
    ensures i + Size(code[i]) < |code| ==> !code[i + Size(code[i])].Pad?
  {
    hide Size;
    JumpSlots(code, i);
    var j := i + Size(code[i]);
    if j < |code| && code[j].Pad? {
      var h :| OwnedBy(code, j, h);
      JumpSlots(code, h);
      if h > i { JumpSlots(code, i); }
    }
  }

  lemma FirstInstruction(code: Code)
    requires Owned(code)
    ensures code != [] ==> !code[0].Pad?
  {
  }

  lemma RewriteWhole(code: Code, i: nat, b: nat)
    requires Whole(code, b) && i < |code| && !code[i].Pad?
    ensures Whole(Rewrite(code, i, b), b) && !Rewrite(code, i, b)[i].Pad?
  {
    hide NoJumpCycle, LabelsInside, Rewrite, LaidOut, Owned;
    JumpSlots(code, i);
    RewriteLabelsInside(code, i, b);
    RewriteNoJumpCycle(code, i, b);
    RewrittenSlots(code, i, b);
    RewriteKeepsSlots(code, Rewrite(code, i, b), i);
  }

  /** What a rewriting may do to the slots: the head stays a head, of the same size or of one slot with
      a one-slot instruction after it. */
  ghost predicate Reslotted(code: Code, after: Code, i: nat)
    requires i < |code| == |after|
  {
    && !after[i].Pad?
    && (forall k :: 0 <= k < |code| && k != i && k != i + 1 ==> after[k] == code[k])
    && (if i + 1 < |code| && after[i + 1] != code[i + 1] then
          Size(code[i]) == 2 && Size(after[i]) == 1 && after[i + 1] == IAny
        else Size(after[i]) == Size(code[i]))
  }

  lemma RewrittenSlots(code: Code, i: nat, b: nat)
    requires i < |code| && !code[i].Pad? && LabelsInside(code) && i + Size(code[i]) <= |code|
    requires code[i].IJmp? ==> code[i + 1].Pad?
    ensures Reslotted(code, Rewrite(code, i, b), i)
  {
    hide FinalTarget;
    if code[i].IJmp? { TargetInside(code, i, b); }
  }

  lemma RewriteKeepsSlots(code: Code, after: Code, i: nat)
    requires i < |code| == |after| && !code[i].Pad? && LaidOut(code, 0) && Owned(code) && Reslotted(code, after, i)
    ensures LaidOut(after, 0) && Owned(after)
  {
    hide Size, LaidOut, Owned;
    ReslottedLaidOut(code, after, i);
    ReslottedOwned(code, after, i);
  }

  lemma ReslottedLaidOut(code: Code, after: Code, i: nat)
    requires i < |code| == |after| && !code[i].Pad? && LaidOut(code, 0) && Reslotted(code, after, i)
    ensures LaidOut(after, 0)
  {
    forall k | 0 <= k < |after|
      ensures k + Size(after[k]) <= |after|
      ensures forall j {:trigger after[j]} :: k < j < k + Size(after[k]) ==> after[j].Pad?
    {
      JumpSlots(code, k);
    }
  }

  lemma ReslottedOwned(code: Code, after: Code, i: nat)
    requires i < |code| == |after| && !code[i].Pad? && LaidOut(code, 0) && Owned(code) && Reslotted(code, after, i)
    ensures Owned(after)
  {
    forall k | 0 <= k < |after| && after[k].Pad? ensures exists h :: OwnedBy(after, k, h) {
      assert code[k].Pad?;
      var h :| OwnedBy(code, k, h);
      JumpSlots(code, h);
      assert OwnedBy(after, k, h);
    }
  }

  // ----- what the pass does to the code

  /** The pass keeps every result, and leaves all labels and jumps threaded. */
  lemma {:induction false} OptimizedWorks(code: Code, i: nat, b: nat)
    requires Whole(code, b) && i <= |code| && (i < |code| ==> !code[i].Pad?) && ThreadedUpTo(code, i)
    ensures SameResults(code, Optimized(code, i, b)) && ThreadedUpTo(Optimized(code, i, b), |code|)
    decreases |code| - i
  {
    hide NoJumpCycle, LabelsInside, LaidOut, Owned, Rewrite, SameResults, ThreadedUpTo, Size;
    if i < |code| {
      var after, next := Rewrite(code, i, b), i + Size(code[i]);
      WholeStep(code, i, b);
      JumpHasPad(code, i);
      RewriteSameResults(code, i, b);
      RewriteThreads(code, i, b, next);
      OptimizedWorks(after, next, b);
      SameResultsTrans(code, after, Optimized(code, i, b));
    } else {
      SameResultsSelf(code);
    }
  }

  lemma JumpHasPad(code: Code, i: nat)
    requires LaidOut(code, 0) && i < |code|
    ensures code[i].IJmp? ==> i + 1 < |code| && code[i + 1].Pad?
  {
    JumpSlots(code, i);
  }

  lemma SameResultsSelf(code: Code)
    ensures SameResults(code, code)
  {
  }

  lemma NoneThreaded(code: Code)
    ensures ThreadedUpTo(code, 0)
  {
  }

  // ----- what the passes leave alone

  lemma {:induction false} OptimizedKeeps(code: Code, i: nat, b: nat, k: nat)
    requires k < i && k < |code|
    ensures Optimized(code, i, b)[k] == code[k]
    decreases |code| - i
  {
    hide FinalTarget;
    if i < |code| { OptimizedKeeps(Rewrite(code, i, b), i + Size(code[i]), b, k); }
  }

  /** Slots of which the rest of the code does not change keep their owner and their first byte. */
  lemma {:induction false} SameOwner(a: Code, c: Code, k: nat)
    requires |a| == |c| && k < |a| && forall j :: 0 <= j <= k ==> a[j] == c[j]
    ensures Owner(a, k) == Owner(c, k)
    decreases k
  {
    if a[k].Pad? && k > 0 { SameOwner(a, c, k - 1); }
  }

  lemma SameFirstByte(a: Code, c: Code, k: nat, bigEndian: bool)
    requires |a| == |c| && k < |a| && forall j :: 0 <= j <= k ==> a[j] == c[j]
    ensures FirstByte(a, k, bigEndian) == FirstByte(c, k, bigEndian)
  {
    SameOwner(a, c, k);
  }

  /** The condition, along the pass from slot `i` on. */
  predicate SafeFrom(code: Code, i: nat, b: nat, bigEndian: bool)
    decreases |code| - i
  {
    i >= |code|
    || (var after := Rewrite(code, i, b);
        && (Becomes(code, i, b) ==> OneSlotBefore(after, i, bigEndian))
        && SafeFrom(after, i + Size(code[i]), b, bigEndian))
  }

  /** The condition for the jumps from slot `i` on, read off the code that the pass leaves. */
  predicate SafeJumps(code: Code, i: nat, b: nat, bigEndian: bool) {
    var c := Optimized(code, i, b);
    forall k: nat :: i <= k < |code| && code[k].IJmp? && Commits(c[k]) ==> OneSlotBefore(c, k, bigEndian)
  }

  lemma {:induction false} SafeBoth(code: Code, i: nat, b: nat, bigEndian: bool)
    requires Whole(code, b) && i <= |code| && (i < |code| ==> !code[i].Pad?)
    ensures SafeFrom(code, i, b, bigEndian) <==> SafeJumps(code, i, b, bigEndian)
    decreases |code| - i
  {
    hide Whole, Rewrite, FirstByte, SizeOfByte, Size;
    if i < |code| {
      var after, next := Rewrite(code, i, b), i + Size(code[i]);
      var c := Optimized(code, i, b);
      WholeStep(code, i, b);
      SafeBoth(after, next, b, bigEndian);
      forall k: nat | k < next && k < |code| ensures c[k] == after[k] { OptimizedKeeps(after, next, b, k); }
      if i > 0 { SameFirstByte(after, c, i - 1, bigEndian); }
      assert OneSlotBefore(after, i, bigEndian) == OneSlotBefore(c, i, bigEndian);
      assert Becomes(code, i, b) == (code[i].IJmp? && Commits(c[i]));
    }
  }

  /** One step of the pass over a code of whole instructions. */
  lemma WholeStep(code: Code, i: nat, b: nat)
    requires Whole(code, b) && i < |code| && !code[i].Pad?
    ensures var after, next := Rewrite(code, i, b), i + Size(code[i]);
            && Whole(after, b) && next <= |code| && (next < |code| ==> !after[next].Pad?)
            && Reslotted(code, after, i)
            && (forall k :: i < k < next ==> code[k].Pad?) && (forall k :: next <= k < |code| ==> after[k] == code[k])
  {
    hide NoJumpCycle, LabelsInside, Rewrite, Size, LaidOut, Owned;
    RewriteWhole(code, i, b);
    NextInstruction(code, i);
    JumpSlots(code, i);
    StepSlots(code, i, b);
  }

  lemma StepSlots(code: Code, i: nat, b: nat)
    requires Whole(code, b) && i < |code| && !code[i].Pad?
    ensures Reslotted(code, Rewrite(code, i, b), i) && i + Size(code[i]) <= |code|
    ensures forall k :: i + Size(code[i]) <= k < |code| ==> Rewrite(code, i, b)[k] == code[k]
  {
    hide NoJumpCycle, LabelsInside, Rewrite, LaidOut, Owned;
    JumpSlots(code, i);
    RewrittenSlots(code, i, b);
  }

  // ----- the literal pass stays on the instructions

  /** An instruction whose label is final is not changed by another visit. */
  lemma Revisited(code: Code, i: nat, b: nat)
    requires Whole(code, b) && i < |code| && !code[i].Pad? && Becomes(code, i, b)
    ensures Rewrite(Rewrite(code, i, b), i, b) == Rewrite(code, i, b)
  {
    hide NoJumpCycle, LaidOut, Owned, FinalTarget;
    TargetInside(code, i, b);
    var after, ft := Rewrite(code, i, b), FinalTarget(code, i, b);
    AtBound(code, ft + code[ft].off, b);
    var t := FinalTarget(code, ft + code[ft].off, b);
    SettledIsFinal(after, t, b);
    assert i + after[i].off == t;
  }

  lemma SettledIsFinal(code: Code, t: int, b: nat)
    requires Settled(code, t)
    ensures FinalTarget(code, t, b) == t
  {
    SettledStays(code, t, 0, b);
  }

  /** Visiting slot `i` and the slots up to `next` leads to the visit of `next`. */
  lemma GoodStep(code: Code, i: nat, b: nat, bigEndian: bool)
    requires Whole(code, b) && i < |code| && !code[i].Pad?
    requires Becomes(code, i, b) ==> OneSlotBefore(Rewrite(code, i, b), i, bigEndian)
    ensures var after, next := Rewrite(code, i, b), i + Size(code[i]);
            var (left, visited) := LiteralWalk(after, next, b, bigEndian);
            && LiteralWalk(code, i, b, bigEndian).0 == left
            && forall k: int :: k in LiteralWalk(code, i, b, bigEndian).1 <==>
                 k in visited || (i <= k < next && !after[k].Pad?)
  {
    hide Whole, FirstByte, SizeOfByte, Rewrite;
    var after, next := Rewrite(code, i, b), i + Size(code[i]);
    WholeStep(code, i, b);
    if Becomes(code, i, b) {
      Revisited(code, i, b);
      assert NextSlot(code, after, i, b, bigEndian) == i;
      assert NextSlot(after, after, i, b, bigEndian) == next;
    } else if i + 1 < |code| && after[i + 1] != code[i + 1] {
      PlainVisit(after, i + 1, b, bigEndian);
      assert NextSlot(code, after, i, b, bigEndian) == i + 1;
    } else {
      assert NextSlot(code, after, i, b, bigEndian) == next;
    }
  }

  lemma PlainVisit(code: Code, i: nat, b: nat, bigEndian: bool)
    requires i < |code| && code[i] == IAny
    ensures Rewrite(code, i, b) == code && NextSlot(code, code, i, b, bigEndian) == i + 1
  {
  }

  lemma {:induction false} GoodWalk(code: Code, i: nat, b: nat, bigEndian: bool)
    requires Whole(code, b) && i <= |code| && (i < |code| ==> !code[i].Pad?) && SafeFrom(code, i, b, bigEndian)
    ensures var (left, visited) := LiteralWalk(code, i, b, bigEndian);
            left == Optimized(code, i, b) && forall k: int :: k in visited <==> Instruction(left, i, k)
    decreases |code| - i
  {
    hide Whole, FirstByte, SizeOfByte, Rewrite, OneSlotBefore, Becomes, Size;
    if i < |code| {
      var after, next := Rewrite(code, i, b), i + Size(code[i]);
      WholeStep(code, i, b);
      GoodWalk(after, next, b, bigEndian);
      GoodStep(code, i, b, bigEndian);
      var left := Optimized(after, next, b);
      forall k: nat | k < next ensures left[k] == after[k] { OptimizedKeeps(after, next, b, k); }
      JoinVisits(left, after, i, next);
    }
  }

  lemma JoinVisits(left: Code, after: Code, i: nat, next: nat)
    requires i < next <= |left| == |after| && forall k: nat :: k < next ==> left[k] == after[k]
    ensures forall k: int ::
              Instruction(left, i, k) <==> Instruction(left, next, k) || (i <= k < next && !after[k].Pad?)
  {
  }

  // ----- the literal pass leaves the instructions

  lemma {:induction false} WalkKeepsHeads(code: Code, i: int, b: nat, bigEndian: bool, k: nat)
    requires k < |code| && !code[k].Pad?
    ensures !LiteralWalk(code, i, b, bigEndian).0[k].Pad?
    decreases |code| - i, if 0 <= i < |code| && code[i].IJmp? then 1 else 0
  {
    hide FinalTarget, FirstByte;
    if 0 <= i < |code| && !code[i].Pad? {
      var after := Rewrite(code, i, b);
      var next := NextSlot(code, after, i, b, bigEndian);
      if next >= i { WalkKeepsHeads(after, next, b, bigEndian, k); }
    }
  }

  lemma {:induction false} VisitedFrom(code: Code, i: int, b: nat, bigEndian: bool)
    ensures forall k :: k in LiteralWalk(code, i, b, bigEndian).1 ==> k >= i || k == -1
    decreases |code| - i, if 0 <= i < |code| && code[i].IJmp? then 1 else 0
  {
    hide FinalTarget, FirstByte;
    if 0 <= i < |code| && !code[i].Pad? {
      var after := Rewrite(code, i, b);
      var next := NextSlot(code, after, i, b, bigEndian);
      if next >= i { VisitedFrom(after, next, b, bigEndian); }
    }
  }

  /** Slot `k`, not before `i`, is visited and no instruction, or not visited and one. */
  ghost predicate Strays(code: Code, i: nat, b: nat, bigEndian: bool, k: int) {
    var (left, visited) := LiteralWalk(code, i, b, bigEndian);
    (k == -1 || k >= i) && (k in visited) != Instruction(left, i, k)
  }

  /** The step back from the jump at slot `i` goes astray. */
  lemma BadStep(code: Code, i: nat, b: nat, bigEndian: bool) returns (k: int)
    requires Whole(code, b) && i < |code| && !code[i].Pad?
    requires Becomes(code, i, b) && !OneSlotBefore(Rewrite(code, i, b), i, bigEndian)
    ensures Strays(code, i, b, bigEndian, k)
  {
    hide Whole, FirstByte, Rewrite;
    var after := Rewrite(code, i, b);
    WholeStep(code, i, b);
    var n := NextSlot(code, after, i, b, bigEndian);
    if n < i {
      k := -1;
    } else {
      assert n == i + 1 || n >= i + 8;
      assert after[i + 1].Pad?;
      if n == i + 1 || i + 2 == |code| {
        k := n;
      } else {
        k := i + 2;
        WalkKeepsHeads(after, n, b, bigEndian, k);
        VisitedFrom(after, n, b, bigEndian);
      }
    }
  }

  lemma {:induction false} BadWalk(code: Code, i: nat, b: nat, bigEndian: bool) returns (k: int)
    requires Whole(code, b) && i <= |code| && (i < |code| ==> !code[i].Pad?) && !SafeFrom(code, i, b, bigEndian)
    ensures Strays(code, i, b, bigEndian, k)
    decreases |code| - i
  {
    hide Whole, FirstByte, SizeOfByte, Rewrite, OneSlotBefore, Becomes, Size;
    var after, next := Rewrite(code, i, b), i + Size(code[i]);
    WholeStep(code, i, b);
    if Becomes(code, i, b) && !OneSlotBefore(after, i, bigEndian) {
      k := BadStep(code, i, b, bigEndian);
    } else {
      k := BadWalk(after, next, b, bigEndian);
      GoodStep(code, i, b, bigEndian);
    }
  }

  /** The literal pass visits exactly the instructions if and only if before every jump that becomes a
      commit there is a slot that begins with the opcode of a one-slot instruction. */
  lemma LiteralPassVisits(code: Code, b: nat, bigEndian: bool)
    requires Whole(code, b)
    ensures VisitsInstructions(code, b, bigEndian) <==> CommitsAfterOneSlot(code, b, bigEndian)
  {
    hide LiteralWalk, Optimized, NoJumpCycle, LabelsInside, LaidOut, Owned, FirstByte;
    FirstInstruction(code);
    SafeBoth(code, 0, b, bigEndian);
    if SafeFrom(code, 0, b, bigEndian) {
      GoodWalk(code, 0, b, bigEndian);
    } else {
      var k := BadWalk(code, 0, b, bigEndian);
    }
  }

  /** And then it leaves the code of the pass that revisits the jump. */
  lemma LiteralPassLeaves(code: Code, b: nat, bigEndian: bool)
    requires Whole(code, b) && CommitsAfterOneSlot(code, b, bigEndian)
    ensures LiteralWalk(code, 0, b, bigEndian).0 == Optimized(code, 0, b)
  {
    hide LiteralWalk, Optimized, NoJumpCycle, LabelsInside, LaidOut, Owned, FirstByte;
    FirstInstruction(code);
    SafeBoth(code, 0, b, bigEndian);
    GoodWalk(code, 0, b, bigEndian);
  }

  // ----- the bound on jumps does not matter

  lemma SameRewrite(code: Code, i: nat, b: nat, c: nat)
    requires i < |code| && NoJumpCycle(code, b) && NoJumpCycle(code, c)
    ensures Rewrite(code, i, b) == Rewrite(code, i, c)
  {
    hide NoJumpCycle;
    forall k ensures FinalTarget(code, k, b) == FinalTarget(code, k, c) {
      AtBound(code, k, b);
      AtBound(code, k, c);
      if b <= c { SettledStays(code, k, b, c); } else { SettledStays(code, k, c, b); }
    }
  }

  lemma {:induction false} SameOptimized(code: Code, i: nat, b: nat, c: nat)
    requires Whole(code, b) && Whole(code, c) && i <= |code| && (i < |code| ==> !code[i].Pad?)
    ensures Optimized(code, i, b) == Optimized(code, i, c)
    decreases |code| - i
  {
    hide NoJumpCycle, LabelsInside, LaidOut, Owned, Rewrite, Size;
    if i < |code| {
      SameRewrite(code, i, b, c);
      WholeStep(code, i, b);
      WholeStep(code, i, c);
      SameOptimized(Rewrite(code, i, b), i + Size(code[i]), b, c);
    }
  }

  /** The literal pass serves the code, on a machine that stores numbers as `bigEndian` says. */
  ghost predicate PassSafe(code: Code, bigEndian: bool) {
    exists b: nat :: Whole(code, b) && CommitsAfterOneSlot(code, b, bigEndian)
  }

  lemma PassSafeAt(code: Code, b: nat, bigEndian: bool)
    requires Whole(code, b)
    ensures PassSafe(code, bigEndian) <==> CommitsAfterOneSlot(code, b, bigEndian)
  {
    hide NoJumpCycle, LabelsInside, LaidOut, Owned, Optimized, FirstByte;
    if PassSafe(code, bigEndian) {
      var c: nat :| Whole(code, c) && CommitsAfterOneSlot(code, c, bigEndian);
      FirstInstruction(code);
      SameOptimized(code, 0, b, c);
    }
  }
}
