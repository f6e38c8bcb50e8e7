/**
 The shape of compiled code: labels stay inside it, slots are laid out, and no chain of plain jumps
 runs in a circle, so that the passes that follow jumps come to an end.
 */
module Shape {
  import opened Peg
  import opened Analysis
  import opened Machine
  import opened CodeGen
  import opened CodeGenCorrect
  import opened Peephole
  import opened VerifyGrammar
  import opened Termination

  /** Labels of `c` lie between `lo` and `hi`. */
  ghost predicate Fits(c: Code, lo: int, hi: int) {
    forall k {:trigger c[k]} :: 0 <= k < |c| && (HasLabel(c[k]) || c[k].IJmp?) ==> lo <= k + c[k].off <= hi
  }

  /** From slot `k` the jumps lead further down, or to an instruction of `c` that is no jump, and no
      open call if it lies behind. */
  ghost predicate Advances(c: Code, k: int) {
    exists n: nat :: var t := FinalTarget(c, k, n); t > k || StopsAt(c, k, t)
  }

  ghost predicate StopsAt(c: Code, k: int, t: int) {
    0 <= t < |c| && !c[t].IJmp? && (t < k ==> !c[t].IOpenCall?)
  }

  ghost predicate Progress(c: Code) { forall k :: 0 <= k < |c| ==> Advances(c, k) }

  /** Open calls are calls of rules in use. */
  ghost predicate CallsInUse(g: Grammar, c: Code) {
    forall k {:trigger c[k]} :: 0 <= k < |c| && c[k].IOpenCall? ==> Used(g, c[k].rule)
  }

  ghost predicate Neat(g: Grammar, c: Code, lo: int, hi: int) {
    Fits(c, lo, hi) && LaidOut(c, 0) && Owned(c) && Progress(c) && CallsInUse(g, c)
  }

  // ----- jumps in a part of the code

  lemma {:induction false} TargetAdd(c: Code, k: int, n: nat, m: nat)
    ensures FinalTarget(c, k, n + m) == FinalTarget(c, FinalTarget(c, k, n), m)
    decreases n
  {
    if n > 0 && 0 <= k < |c| && c[k].IJmp? {
      TargetAdd(c, k + c[k].off, n - 1, m);
    } else if n > 0 {
      NoJump(c, k, n + m);
      NoJump(c, k, m);
    }
  }

  lemma NoJump(c: Code, k: int, n: nat)
    requires !(0 <= k < |c| && c[k].IJmp?)
    ensures FinalTarget(c, k, n) == k
  {
  }

  /** The jumps of a part are jumps of the whole. */
  lemma {:induction false} PartJumps(part: Code, whole: Code, at: nat, k: int, n: nat) returns (n': nat)
    requires at + |part| <= |whole|
    requires forall j :: 0 <= j < |part| && part[j].IJmp? ==> whole[at + j] == part[j]
    ensures FinalTarget(whole, at + k, n') == at + FinalTarget(part, k, n)
    decreases n
  {
    n' := 0;
    if n > 0 && 0 <= k < |part| && part[k].IJmp? {
      n' := PartJumps(part, whole, at, k + part[k].off, n - 1);
      n' := n' + 1;
      assert at + (k + part[k].off) == (at + k) + whole[at + k].off;
    }
  }

  lemma PartAdvances(part: Code, whole: Code, at: nat, k: int)
    requires at + |part| <= |whole| && 0 <= k < |part| && Advances(part, k)
    requires forall j :: 0 <= j < |part| ==> whole[at + j] == part[j]
    ensures Advances(whole, at + k)
  {
    var n: nat :| var t := FinalTarget(part, k, n); t > k || StopsAt(part, k, t);
    var n' := PartJumps(part, whole, at, k, n);
  }

  lemma NeatCat(g: Grammar, a: Code, b: Code, lo: int, hi: int)
    requires Neat(g, a, lo, hi) && Neat(g, b, lo - |a|, hi - |a|)
    ensures Neat(g, a + b, lo, hi)
  {
    hide FinalTarget, Advances, Owned;
    var c := a + b;
    forall k | 0 <= k < |c| ensures Advances(c, k) {
      if k < |a| { PartAdvances(a, c, 0, k); } else { PartAdvances(b, c, |a|, k - |a|); }
    }
    CatFits(a, b, lo, hi);
    CatLaidOut(a, b);
    CatOwned(a, b);
    CatCalls(g, a, b);
  }

  lemma CatOwned(a: Code, b: Code)
    requires Owned(a) && Owned(b)
    ensures Owned(a + b)
  {
    hide Size;
    var c := a + b;
    forall k | 0 <= k < |c| && c[k].Pad? ensures exists h :: OwnedBy(c, k, h) {
      if k < |a| {
        assert c[k] == a[k];
        var h :| OwnedBy(a, k, h);
        assert OwnedBy(c, k, h);
      } else {
        assert c[k] == b[k - |a|];
        var h :| OwnedBy(b, k - |a|, h);
        assert OwnedBy(c, k, h + |a|);
      }
    }
  }

  lemma EmitOwned(ins: Instr)
    requires !ins.Pad?
    ensures Owned(Emit(ins))
  {
    var c := Emit(ins);
    forall k | 0 <= k < |c| && c[k].Pad? ensures exists h :: OwnedBy(c, k, h) { assert OwnedBy(c, k, 0); }
  }

  lemma CatCalls(g: Grammar, a: Code, b: Code)
    requires CallsInUse(g, a) && CallsInUse(g, b)
    ensures CallsInUse(g, a + b)
  {
    forall k | 0 <= k < |a + b| && (a + b)[k].IOpenCall? ensures Used(g, (a + b)[k].rule) {
      if k >= |a| { assert (a + b)[k] == b[k - |a|]; }
    }
  }

  lemma CatFits(a: Code, b: Code, lo: int, hi: int)
    requires Fits(a, lo, hi) && Fits(b, lo - |a|, hi - |a|)
    ensures Fits(a + b, lo, hi)
  {
    forall k | 0 <= k < |a + b| && (HasLabel((a + b)[k]) || (a + b)[k].IJmp?) ensures lo <= k + (a + b)[k].off <= hi {
      if k >= |a| { assert (a + b)[k] == b[k - |a|]; }
    }
  }

  lemma CatLaidOut(a: Code, b: Code)
    requires LaidOut(a, 0) && LaidOut(b, 0)
    ensures LaidOut(a + b, 0)
  {
    hide Size;
    var c := a + b;
    forall k | 0 <= k < |c|
      ensures k + Size(c[k]) <= |c| && forall j {:trigger c[j]} :: k < j < k + Size(c[k]) ==> c[j].Pad?
    {
      if k < |a| {
        assert c[k] == a[k];
        forall j | k < j < k + Size(c[k]) ensures c[j].Pad? { assert c[j] == a[j]; }
      } else {
        assert c[k] == b[k - |a|];
        forall j | k < j < k + Size(c[k]) ensures c[j].Pad? { assert c[j] == b[j - |a|]; }
      }
    }
  }

  lemma NeatEmpty(g: Grammar, lo: int, hi: int)
    ensures Neat(g, [], lo, hi)
  {
  }

  lemma NeatEmit(g: Grammar, ins: Instr, lo: int, hi: int)
    requires HasLabel(ins) || ins.IJmp? ==> lo <= ins.off <= hi
    requires ins.IJmp? ==> ins.off > 0
    requires ins.IOpenCall? ==> Used(g, ins.rule)
    requires !ins.Pad?
    ensures Neat(g, Emit(ins), lo, hi)
  {
    hide Owned;
    EmitOwned(ins);
    var c := Emit(ins);
    assert forall k :: 0 < k < |c| ==> c[k] == Pad;
    forall k | 0 <= k < |c| ensures Advances(c, k) {
      if k == 0 && ins.IJmp? {
        assert FinalTarget(c, 0, 1) == FinalTarget(c, 0 + ins.off, 0);
      } else {
        assert FinalTarget(c, k, 0) == k;
      }
    }
  }

  lemma NeatTest(g: Grammar, cs: Charset, e: bool, off: int, lo: int, hi: int)
    requires lo <= 0 < off <= hi
    ensures Neat(g, CodeTest(cs, e, off), lo, hi)
  {
    if e { NeatEmpty(g, lo, hi); } else { NeatEmit(g, TestInstr(cs, off), lo, hi); }
  }

  lemma NeatWider(g: Grammar, c: Code, lo: int, hi: int, lo': int, hi': int)
    requires Neat(g, c, lo, hi) && lo' <= lo && hi <= hi'
    ensures Neat(g, c, lo', hi')
  {
  }

  // ----- compiled trees

  /** What has to be known of the grammar for a tree of the main pattern. */
  ghost predicate GrammarNeat(m: Mode) {
    m.main ==> Neat(m.g, GrammarCode(m.(main := false)), 0, |GrammarCode(m.(main := false))|)
  }

  lemma {:induction false} NeatTree(m: Mode, t: Tree, opt: bool, tt: Test, fl: Charset, lo: int, hi: int)
    requires GrammarNeat(m) && CallsUsed(m.g, t) && lo <= 0 && |Gen(m, t, opt, tt, fl)| <= hi
    ensures Neat(m.g, Gen(m, t, opt, tt, fl), lo, hi)
    decreases t, 2
  {
    hide GrammarNeat, Neat, First, HeadFail, FixedLen, CharsetType, Emit, GenChoice, GenRep, GenNot, GenAnd,
        GrammarCode;
    match t
    case TChar(c) => if tt == CharTest(c) { NeatEmit(m.g, IAny, lo, hi); } else { NeatEmit(m.g, IChar(c), lo, hi); }
    case TAny => NeatEmit(m.g, IAny, lo, hi);
    case TSet(cs) => NeatSet(m.g, cs, tt, lo, hi);
    case TTrue => NeatEmpty(m.g, lo, hi);
    case TFalse => NeatEmit(m.g, IFail, lo, hi);
    case TChoice(p1, p2) => NeatChoice(m, p1, p2, opt, fl, lo, hi);
    case TRep(p) => NeatRep(m, p, opt, fl, lo, hi);
    case TBehind(n, p) =>
      var c := Gen(m, p, false, NoTest, FULLSET);
      UsedPart(m.g, t, p);
      NeatBehind(m.g, n, lo, hi);
      NeatTree(m, p, false, NoTest, FULLSET, lo - |BehindCode(n)|, hi - |BehindCode(n)|);
      NeatCat(m.g, BehindCode(n), c, lo, hi);
    case TNot(p) => NeatNot(m, p, lo, hi);
    case TAnd(p) => NeatAnd(m, p, tt, lo, hi);
    case TSeq(p1, p2) =>
      var c1 := Gen(m, p1, false, tt, SeqFollow(m, p1, p2, fl));
      var c2 := Gen(m, p2, opt, SeqTest(m, p1, tt), fl);
      UsedPart(m.g, t, p1);
      UsedPart(m.g, t, p2);
      NeatTree(m, p1, false, tt, SeqFollow(m, p1, p2, fl), lo, hi);
      NeatTree(m, p2, opt, SeqTest(m, p1, tt), fl, lo - |c1|, hi - |c1|);
      NeatCat(m.g, c1, c2, lo, hi);
    case TCall(k) =>
      assert HasCall(t, k);
      NeatEmit(m.g, IOpenCall(k), lo, hi);
    case TGrammar => NeatGrammarLeaf(m, lo, hi);
  }

  lemma NeatGrammarLeaf(m: Mode, lo: int, hi: int)
    requires GrammarNeat(m) && lo <= 0 && (m.main ==> |GrammarCode(m.(main := false))| <= hi)
    ensures Neat(m.g, if m.main then GrammarCode(m.(main := false)) else [], lo, hi)
  {
    hide GrammarCode;
    if m.main {
      var c := GrammarCode(m.(main := false));
      NeatWider(m.g, c, 0, |c|, lo, hi);
    } else {
      NeatEmpty(m.g, lo, hi);
    }
  }

  lemma NeatSet(g: Grammar, cs: Charset, tt: Test, lo: int, hi: int)
    ensures Neat(g, CodeCharset(cs, tt), lo, hi)
  {
    hide Neat;
    NeatEmit(g, IAny, lo, hi);
    NeatEmit(g, IFail, lo, hi);
    NeatEmit(g, ISet(cs), lo, hi);
    if CharsetType(cs).Single? { NeatEmit(g, IChar(CharsetType(cs).c), lo, hi); }
  }

  lemma NeatBehind(g: Grammar, n: nat, lo: int, hi: int)
    ensures Neat(g, BehindCode(n), lo, hi)
  {
    hide Neat;
    if n > 0 { NeatEmit(g, IBehind(n), lo, hi); } else { NeatEmpty(g, lo, hi); }
  }

  lemma NeatChoice(m: Mode, p1: Tree, p2: Tree, opt: bool, fl: Charset, lo: int, hi: int)
    requires GrammarNeat(m) && CallsUsed(m.g, TChoice(p1, p2)) && lo <= 0 && |GenChoice(m, p1, p2, opt, fl)| <= hi
    ensures Neat(m.g, GenChoice(m, p1, p2, opt, fl), lo, hi)
    decreases TChoice(p1, p2), 1
  {
    hide GrammarNeat, Neat, First, HeadFail, Gen, Emit;
    UsedPart(m.g, TChoice(p1, p2), p1);
    UsedPart(m.g, TChoice(p1, p2), p2);
    if TestedChoice(m, p1, p2, fl) {
      NeatTestedChoice(m, p1, p2, opt, fl, lo, hi);
    } else if opt && p2.TTrue? {
      NeatEmit(m.g, IPartialCommit(2), lo, hi);
      NeatTree(m, p1, true, NoTest, FULLSET, lo - 2, hi - 2);
      NeatCat(m.g, Emit(IPartialCommit(2)), Gen(m, p1, true, NoTest, FULLSET), lo, hi);
    } else {
      NeatPlainChoice(m, p1, p2, opt, fl, lo, hi);
    }
  }

  lemma NeatTestedChoice(m: Mode, p1: Tree, p2: Tree, opt: bool, fl: Charset, lo: int, hi: int)
    requires TestedChoice(m, p1, p2, fl)
    requires GrammarNeat(m) && CallsUsed(m.g, TChoice(p1, p2)) && lo <= 0 && |GenChoice(m, p1, p2, opt, fl)| <= hi
    ensures Neat(m.g, GenChoice(m, p1, p2, opt, fl), lo, hi)
    decreases TChoice(p1, p2), 0
  {
    hide GrammarNeat, Neat, First, HeadFail, Gen, Emit, CodeTest, TestSize, TestOf;
    UsedPart(m.g, TChoice(p1, p2), p1);
    UsedPart(m.g, TChoice(p1, p2), p2);
    var cs := First(m.g, p1, FULLSET, DEPTH).cs;
    var sz := TestSize(cs, false);
    var c1 := Gen(m, p1, false, TestOf(cs, false), fl);
    var c2 := Gen(m, p2, opt, NoTest, fl);
    var jmp := JmpOver(p2, |c2|);
    var off := sz + |c1| + |jmp|;
    var ct := CodeTest(cs, false, off);
    TestTakesRoom(cs);
    NeatTest(m.g, cs, false, off, lo, hi);
    NeatTree(m, p1, false, TestOf(cs, false), fl, lo - sz, hi - sz);
    NeatCat(m.g, ct, c1, lo, hi);
    if p2.TTrue? {
      NeatEmpty(m.g, lo - sz - |c1|, hi - sz - |c1|);
    } else {
      NeatEmit(m.g, IJmp(2 + |c2|), lo - sz - |c1|, hi - sz - |c1|);
    }
    NeatCat(m.g, ct + c1, jmp, lo, hi);
    NeatTree(m, p2, opt, NoTest, fl, lo - off, hi - off);
    NeatCat(m.g, ct + c1 + jmp, c2, lo, hi);
  }

  lemma NeatPlainChoice(m: Mode, p1: Tree, p2: Tree, opt: bool, fl: Charset, lo: int, hi: int)
    requires !TestedChoice(m, p1, p2, fl) && !(opt && p2.TTrue?)
    requires GrammarNeat(m) && CallsUsed(m.g, TChoice(p1, p2)) && lo <= 0 && |GenChoice(m, p1, p2, opt, fl)| <= hi
    ensures Neat(m.g, GenChoice(m, p1, p2, opt, fl), lo, hi)
    decreases TChoice(p1, p2), 0
  {
    hide GrammarNeat, Neat, First, HeadFail, Gen, Emit, CodeTest, TestSize, TestOf;
    UsedPart(m.g, TChoice(p1, p2), p1);
    UsedPart(m.g, TChoice(p1, p2), p2);
    var f1 := First(m.g, p1, FULLSET, DEPTH);
    var sz := TestSize(f1.cs, f1.e);
    var c1 := Gen(m, p1, p2.TTrue?, TestOf(f1.cs, f1.e), FULLSET);
    var c2 := Gen(m, p2, opt, NoTest, fl);
    var ct := CodeTest(f1.cs, f1.e, sz + 4 + |c1|);
    var ch := Emit(IChoice(4 + |c1|));
    var cm := Emit(ICommit(2 + |c2|));
    NeatTest(m.g, f1.cs, f1.e, sz + 4 + |c1|, lo, hi);
    NeatEmit(m.g, IChoice(4 + |c1|), lo - sz, hi - sz);
    NeatCat(m.g, ct, ch, lo, hi);
    NeatTree(m, p1, p2.TTrue?, TestOf(f1.cs, f1.e), FULLSET, lo - sz - 2, hi - sz - 2);
    NeatCat(m.g, ct + ch, c1, lo, hi);
    NeatEmit(m.g, ICommit(2 + |c2|), lo - sz - 2 - |c1|, hi - sz - 2 - |c1|);
    NeatCat(m.g, ct + ch + c1, cm, lo, hi);
    NeatTree(m, p2, opt, NoTest, fl, lo - sz - 4 - |c1|, hi - sz - 4 - |c1|);
    NeatCat(m.g, ct + ch + c1 + cm, c2, lo, hi);
  }

  lemma TestTakesRoom(cs: Charset)
    ensures TestSize(cs, false) >= 2
  {
  }

  lemma NeatRep(m: Mode, p: Tree, opt: bool, fl: Charset, lo: int, hi: int)
    requires GrammarNeat(m) && CallsUsed(m.g, TRep(p)) && lo <= 0 && |GenRep(m, p, opt, fl)| <= hi
    ensures Neat(m.g, GenRep(m, p, opt, fl), lo, hi)
    decreases TRep(p), 0
  {
    hide GrammarNeat, Neat, First, HeadFail, Gen, Emit, CodeTest, TestSize, TestOf;
    UsedPart(m.g, TRep(p), p);
    if ToCharset(p).Some? {
      NeatEmit(m.g, ISpan(ToCharset(p).value), lo, hi);
    } else {
      var f := First(m.g, p, FULLSET, DEPTH);
      if TestedLoop(m, p, fl) {
        var sz := TestSize(f.cs, false);
        var c := Gen(m, p, m.asWritten && opt, TestOf(f.cs, false), FULLSET);
        var ct := CodeTest(f.cs, false, sz + |c| + 2);
        NeatTest(m.g, f.cs, false, sz + |c| + 2, lo, hi);
        NeatTree(m, p, m.asWritten && opt, TestOf(f.cs, false), FULLSET, lo - sz, hi - sz);
        NeatCat(m.g, ct, c, lo, hi);
        NeatLoop(m.g, f.cs, c, lo, hi);
      } else {
        NeatPlainLoop(m, p, opt, fl, lo, hi);
      }
    }
  }

  lemma NeatPlainLoop(m: Mode, p: Tree, opt: bool, fl: Charset, lo: int, hi: int)
    requires GrammarNeat(m) && CallsUsed(m.g, p) && lo <= 0 && |GenRep(m, p, opt, fl)| <= hi
    requires ToCharset(p).None? && !TestedLoop(m, p, fl)
    ensures Neat(m.g, GenRep(m, p, opt, fl), lo, hi)
    decreases TRep(p), 0, 0
  {
    hide GrammarNeat, Neat, First, HeadFail, Gen, Emit, CodeTest, TestSize, TestOf, TestedLoop;
    var f := First(m.g, p, FULLSET, DEPTH);
    var sz := TestSize(f.cs, f.e);
    var c := Gen(m, p, false, NoTest, FULLSET);
    var ct := CodeTest(f.cs, f.e, sz + 4 + |c|);
    var open := if opt then Emit(IPartialCommit(2)) else Emit(IChoice(4 + |c|));
    NeatTest(m.g, f.cs, f.e, sz + 4 + |c|, lo, hi);
    if opt {
      NeatEmit(m.g, IPartialCommit(2), lo - sz, hi - sz);
    } else {
      NeatEmit(m.g, IChoice(4 + |c|), lo - sz, hi - sz);
    }
    NeatCat(m.g, ct, open, lo, hi);
    NeatTree(m, p, false, NoTest, FULLSET, lo - sz - 2, hi - sz - 2);
    NeatCat(m.g, ct + open, c, lo, hi);
    NeatEmit(m.g, IPartialCommit(-|c|), lo - sz - 2 - |c|, hi - sz - 2 - |c|);
    NeatCat(m.g, ct + open + c, Emit(IPartialCommit(-|c|)), lo, hi);
  }

  /** The jump back to the test of a loop: what it finds there is no jump, or a jump over the loop. */
  lemma NeatLoop(g: Grammar, cs: Charset, c: Code, lo: int, hi: int)
    requires var sz := TestSize(cs, false);
             lo <= 0 && sz + |c| + 2 <= hi && Neat(g, CodeTest(cs, false, sz + |c| + 2) + c, lo, hi)
    ensures var sz := TestSize(cs, false);
            Neat(g, CodeTest(cs, false, sz + |c| + 2) + c + Emit(IJmp(-(sz + |c|))), lo, hi)
  {
    hide CharsetType, CodeTest, Fits, LaidOut, Owned, Progress, CallsInUse;
    var k := TestSize(cs, false) + |c|;
    var a := CodeTest(cs, false, k + 2) + c;
    JumpBack(g, k, lo, hi);
    CatFits(a, Emit(IJmp(-k)), lo, hi);
    CatLaidOut(a, Emit(IJmp(-k)));
    CatCalls(g, a, Emit(IJmp(-k)));
    EmitOwned(IJmp(-k));
    CatOwned(a, Emit(IJmp(-k)));
    LoopProgress(cs, a, k);
  }

  lemma JumpBack(g: Grammar, k: int, lo: int, hi: int)
    requires 0 <= k && lo <= 0 && k + 2 <= hi
    ensures var b := Emit(IJmp(-k)); Fits(b, lo - k, hi - k) && LaidOut(b, 0) && CallsInUse(g, b)
  {
    var b := Emit(IJmp(-k));
    assert forall j :: 0 < j < |b| ==> b[j] == Pad;
  }

  lemma LoopProgress(cs: Charset, a: Code, k: int)
    requires |a| == k && Progress(a)
    requires k >= TestSize(cs, false) && a[..TestSize(cs, false)] == CodeTest(cs, false, k + 2)
    ensures Progress(a + Emit(IJmp(-k)))
  {
    hide CharsetType, FinalTarget, Advances, CodeTest;
    TestTakesRoom(cs);
    var b := Emit(IJmp(-k));
    assert forall j :: 0 < j < |b| ==> b[j] == Pad;
    TestComesFirst(cs, k + 2);
    assert a[0] == a[..TestSize(cs, false)][0];
    forall j | 0 <= j < |a + b| ensures Advances(a + b, j) {
      if j < k {
        PartAdvances(a, a + b, 0, j);
      } else {
        LoopAdvances(cs, a + b, k, j);
      }
    }
  }

  lemma TestComesFirst(cs: Charset, off: int)
    ensures |CodeTest(cs, false, off)| > 0 && CodeTest(cs, false, off)[0] == TestInstr(cs, off)
  {
  }

  lemma LoopAdvances(cs: Charset, w: Code, k: int, j: int)
    requires k <= j < |w| && 0 < k && w[0] == TestInstr(cs, k + 2) && w[k] == IJmp(-k)
    requires j > k ==> w[j].Pad?
    ensures Advances(w, j)
  {
    hide CharsetType;
    if j == k {
      assert FinalTarget(w, k, 2) == FinalTarget(w, k + w[k].off, 1);
      assert FinalTarget(w, 0, 1) == if w[0].IJmp? then k + 2 else 0;
    } else {
      assert FinalTarget(w, j, 0) == j;
    }
  }

  lemma NeatNot(m: Mode, p: Tree, lo: int, hi: int)
    requires GrammarNeat(m) && CallsUsed(m.g, TNot(p)) && lo <= 0 && |GenNot(m, p)| <= hi
    ensures Neat(m.g, GenNot(m, p), lo, hi)
    decreases TNot(p), 0
  {
    hide GrammarNeat, Neat, First, HeadFail, Gen, Emit, CodeTest, TestSize;
    UsedPart(m.g, TNot(p), p);
    var f := First(m.g, p, FULLSET, DEPTH);
    var sz := TestSize(f.cs, f.e);
    if HeadFail(m.g, p, DEPTH) {
      NeatTest(m.g, f.cs, f.e, sz + 1, lo, hi);
      NeatEmit(m.g, IFail, lo - sz, hi - sz);
      NeatCat(m.g, CodeTest(f.cs, f.e, sz + 1), Emit(IFail), lo, hi);
    } else {
      var c := Gen(m, p, false, NoTest, FULLSET);
      var ct := CodeTest(f.cs, f.e, sz + 2 + |c| + 1);
      var ch := Emit(IChoice(2 + |c| + 1));
      NeatTest(m.g, f.cs, f.e, sz + 2 + |c| + 1, lo, hi);
      NeatEmit(m.g, IChoice(2 + |c| + 1), lo - sz, hi - sz);
      NeatCat(m.g, ct, ch, lo, hi);
      NeatTree(m, p, false, NoTest, FULLSET, lo - sz - 2, hi - sz - 2);
      NeatCat(m.g, ct + ch, c, lo, hi);
      NeatEmit(m.g, IFailTwice, lo - sz - 2 - |c|, hi - sz - 2 - |c|);
      NeatCat(m.g, ct + ch + c, Emit(IFailTwice), lo, hi);
    }
  }

  lemma NeatAnd(m: Mode, p: Tree, tt: Test, lo: int, hi: int)
    requires GrammarNeat(m) && CallsUsed(m.g, TAnd(p)) && lo <= 0 && |GenAnd(m, p, tt)| <= hi
    ensures Neat(m.g, GenAnd(m, p, tt), lo, hi)
    decreases TAnd(p), 0
  {
    hide GrammarNeat, Neat, FixedLen, Gen, Emit;
    UsedPart(m.g, TAnd(p), p);
    var n := FixedLen(m.g, p);
    var c := Gen(m, p, false, tt, FULLSET);
    if 0 <= n <= MAXBEHIND {
      NeatTree(m, p, false, tt, FULLSET, lo, hi);
      NeatBehind(m.g, n, lo - |c|, hi - |c|);
      NeatCat(m.g, c, BehindCode(n), lo, hi);
    } else {
      var ch := Emit(IChoice(2 + |c| + 2));
      NeatEmit(m.g, IChoice(2 + |c| + 2), lo, hi);
      NeatTree(m, p, false, tt, FULLSET, lo - 2, hi - 2);
      NeatCat(m.g, ch, c, lo, hi);
      NeatEmit(m.g, IBackCommit(3), lo - 2 - |c|, hi - 2 - |c|);
      NeatCat(m.g, ch + c, Emit(IBackCommit(3)), lo, hi);
      NeatEmit(m.g, IFail, lo - 4 - |c|, hi - 4 - |c|);
      NeatCat(m.g, ch + c + Emit(IBackCommit(3)), Emit(IFail), lo, hi);
    }
  }

  lemma {:induction false} NeatRules(m: Mode, n: nat, hi: int)
    requires !m.main && n <= |m.g| && |RulesCode(m, n)| <= hi + 1
    ensures Neat(m.g, RulesCode(m, n), 0, hi)
    decreases n
  {
    hide Neat, Gen, Emit;
    if n == 0 {
      NeatEmpty(m.g, 0, hi);
    } else {
      var c := RulesCode(m, n - 1);
      var body := Gen(m, m.g[n - 1], false, NoTest, FULLSET);
      var at := |c|;
      NeatRules(m, n - 1, hi);
      RuleCallsUsed(m.g, n - 1);
      NeatTree(m, m.g[n - 1], false, NoTest, FULLSET, -at, hi - at);
      NeatEmit(m.g, IRet, -at - |body|, hi - at - |body|);
      NeatCat(m.g, body, Emit(IRet), -at, hi - at);
      NeatCat(m.g, c, RuleCode(m, n - 1), 0, hi);
    }
  }

  // ----- the grammar

  /** Following jumps never leaves the code, except for its end. */
  lemma {:induction false} TargetFits(c: Code, k: int, n: nat)
    requires Fits(c, 0, |c|) && 0 <= k <= |c|
    ensures 0 <= FinalTarget(c, k, n) <= |c|
    decreases n
  {
    if n > 0 && k < |c| && c[k].IJmp? { TargetFits(c, k + c[k].off, n - 1); }
  }

  /** If the jumps from `pc` never end, neither does the run. */
  lemma {:induction false} JumpsForever(c: Code, s: Subject, pc: int, pos: nat, stk: Stack, m: nat)
    requires pc != GIVEUP && forall n: nat :: n < m ==> !Settled(c, FinalTarget(c, pc, n))
    ensures Steps(c, s, Run(pc, pos, stk), m) == Run(FinalTarget(c, pc, m), pos, stk)
    decreases m
  {
    if m > 0 {
      JumpsForever(c, s, pc, pos, stk, m - 1);
      assert !Settled(c, FinalTarget(c, pc, m - 1));
      StepsAdd(c, s, Run(pc, pos, stk), m - 1, 1);
      TargetAdd(c, pc, m - 1, 1);
      var t := FinalTarget(c, pc, m - 1);
      assert Steps(c, s, Run(t, pos, stk), 1) == Steps(c, s, Step(c, s, Run(t, pos, stk)), 0);
      assert FinalTarget(c, t, 1) == FinalTarget(c, t + c[t].off, 0);
    }
  }

  /** The jumps from the start of a rule in use come to an end: otherwise matching the rule would not,
      even on the empty subject, although the grammar was accepted. */
  lemma RuleStartSettles(m: Mode, k: nat) returns (n: nat)
    requires !m.main && k < |m.g| && Used(m.g, k) && Accepted(m.g) && RulesSafe(m)
    ensures Settled(CorrectCalls(m, RulesCode(m, |m.g|)),
            FinalTarget(CorrectCalls(m, RulesCode(m, |m.g|)), RuleStart(m, k), n))
  {
    hide Gen, Eval, FinalTarget, RulesPlaced, Embedded, Meet;
    var code := CorrectCalls(m, RulesCode(m, |m.g|));
    var e := Env(m, [], code, 0);
    SelfPlaced(m);
    RuleEnds(m.g, k, [], 0);
    var fuel: nat :| !Eval(m.g, m.g[k], [], 0, fuel).OutOfFuel?;
    RuleLayout(e, k);
    var start := RuleStart(m, k);
    var ret := start + |Gen(m, m.g[k], false, NoTest, FULLSET)|;
    Correct(e, m.g[k], false, NoTest, FULLSET, 0, fuel, start, Base);
    var r := Eval(m.g, m.g[k], [], 0, fuel);
    if r.Ok? { Exact(e, Run(start, 0, Base), ret, Base, r.pos); }
    n := MeetsSettled(code, start, if r.Ok? then Run(ret, r.pos, Base) else Stuck);
  }

  lemma MeetsSettled(code: Code, start: nat, b: State) returns (n: nat)
    requires Meet(code, [], Run(start, 0, Base), b)
    requires b == Stuck || (b.Run? && b.stk == Base && 0 <= b.pc < |code| && code[b.pc].IRet?)
    ensures Settled(code, FinalTarget(code, start, n))
  {
    hide FinalTarget;
    var m: nat, k: nat :| Steps(code, [], Run(start, 0, Base), m) == Steps(code, [], b, k);
    if exists i: nat :: i <= m && Settled(code, FinalTarget(code, start, i)) {
      n :| n <= m && Settled(code, FinalTarget(code, start, n));
    } else {
      JumpsForever(code, [], start, 0, Base, m);
      if k > 0 { StepsFromFinal(code, [], Stuck, k - 1); }
      n := m;
    }
  }

  lemma SelfPlaced(m: Mode)
    requires !m.main
    ensures RulesPlaced(Env(m, [], CorrectCalls(m, RulesCode(m, |m.g|)), 0))
  {
    var code := CorrectCalls(m, RulesCode(m, |m.g|));
    var e0 := Env(m.(main := true), [], code, 0);
    assert Embedded(e0, 0, code);
    RulesInPlace(e0, Env(m, [], code, 0));
  }

  /** A tail call advances: the rule it jumps to starts with no endless jumps. */
  lemma TailCallSettles(m: Mode, k: nat) returns (n: nat)
    requires !m.main && Accepted(m.g) && RulesSafe(m)
    requires var raw := RulesCode(m, |m.g|);
             k < |raw| && raw[k].IOpenCall? && raw[k].rule < |m.g| && Used(m.g, raw[k].rule)
    ensures var c := CorrectCalls(m, RulesCode(m, |m.g|)); Settled(c, FinalTarget(c, k, n))
  {
    hide RulesCode, LeadsToRet;
    var raw := RulesCode(m, |m.g|);
    var c := CorrectCalls(m, raw);
    assert c[k] == CorrectCall(m, raw, k);
    if c[k].IJmp? {
      var r := raw[k].rule;
      n := RuleStartSettles(m, r);
      n := n + 1;
    } else {
      n := 0;
    }
  }

  lemma CallsInRange(m: Mode, k: nat)
    requires !m.main && CallsInUse(m.g, RulesCode(m, |m.g|)) && WellFormedRules(m.g)
    requires var raw := RulesCode(m, |m.g|); k < |raw| && raw[k].IOpenCall?
    ensures RulesCode(m, |m.g|)[k].rule < |m.g| || RulesCode(m, |m.g|)[k].rule == 0
  {
    var r := RulesCode(m, |m.g|)[k].rule;
    assert Used(m.g, r);
    if r != 0 {
      var j :| 0 <= j < |m.g| && HasCall(m.g[j], r);
      HasCallInRange(m.g, m.g[j], r);
    }
  }

  lemma {:induction false} HasCallInRange(g: Grammar, t: Tree, r: nat)
    requires WellFormed(g, t, false) && HasCall(t, r)
    ensures r < |g|
  {
    match t
    case TRep(p) => HasCallInRange(g, p, r);
    case TNot(p) => HasCallInRange(g, p, r);
    case TAnd(p) => HasCallInRange(g, p, r);
    case TBehind(_, p) => HasCallInRange(g, p, r);
    case TSeq(p1, p2) => if HasCall(p1, r) { HasCallInRange(g, p1, r); } else { HasCallInRange(g, p2, r); }
    case TChoice(p1, p2) => if HasCall(p1, r) { HasCallInRange(g, p1, r); } else { HasCallInRange(g, p2, r); }
    case TCall(_) =>
  }

  ghost predicate JumpsEnd(c: Code, k: int) { exists n: nat :: Settled(c, FinalTarget(c, k, n)) }

  /** Corrected code advances where the raw code does, if its new jumps come to an end. */
  lemma AdvancesCorrected(raw: Code, c: Code, k: nat)
    requires |c| == |raw| && Fits(c, 0, |c|) && k < |raw| && Advances(raw, k)
    requires forall j :: 0 <= j < |raw| && raw[j].IJmp? ==> c[j] == raw[j]
    requires forall j :: 0 <= j < |raw| && !raw[j].IJmp? ==> JumpsEnd(c, j)
    requires forall j :: 0 <= j < |raw| ==> !c[j].IOpenCall?
    ensures Advances(c, k)
  {
    hide FinalTarget;
    var n: nat :| var t := FinalTarget(raw, k, n); t > k || StopsAt(raw, k, t);
    var t := FinalTarget(raw, k, n);
    var n' := PartJumps(raw, c, 0, k, n);
    if t <= k {
      var n2: nat :| Settled(c, FinalTarget(c, t, n2));
      TargetAdd(c, k, n', n2);
      TargetFits(c, k, n' + n2);
    }
  }

  lemma CorrectedAdvances(m: Mode, k: nat)
    requires !m.main && Accepted(m.g) && RulesSafe(m) && k < |RulesCode(m, |m.g|)|
    requires Neat(m.g, RulesCode(m, |m.g|), 0, |RulesCode(m, |m.g|)|)
    requires var raw := RulesCode(m, |m.g|); Fits(CorrectCalls(m, raw), 0, |raw|)
    ensures Advances(CorrectCalls(m, RulesCode(m, |m.g|)), k)
  {
    hide RulesCode, FinalTarget, Accepted, RulesSafe, LaidOut, WellFormedRules, LeadsToRet, RuleStart, Fits, Advances;
    var raw := RulesCode(m, |m.g|);
    var c := CorrectCalls(m, raw);
    if |m.g| == 0 { NoRules(m); }
    CorrectedLength(m, raw);
    forall j | 0 <= j < |raw| && raw[j].IJmp? ensures c[j] == raw[j] { assert c[j] == CorrectCall(m, raw, j); }
    forall j | 0 <= j < |raw| && !raw[j].IJmp? ensures JumpsEnd(c, j) {
      if raw[j].IOpenCall? {
        InstanceOfAccepted(m);
        CallsInRange(m, j);
        var n := TailCallSettles(m, j);
      } else {
        assert c[j] == CorrectCall(m, raw, j);
        NoJump(c, j, 0);
      }
    }
    forall j | 0 <= j < |raw| ensures !c[j].IOpenCall? {
      assert c[j] == CorrectCall(m, raw, j);
      if raw[j].IOpenCall? {
        InstanceOfAccepted(m);
        CallsInRange(m, j);
      }
    }
    hide CorrectCalls;
    assert Advances(raw, k);
    AdvancesCorrected(raw, c, k);
  }

  lemma RuleStartInside(m: Mode, k: nat)
    requires !m.main && k < |m.g|
    ensures RuleStart(m, k) <= |RulesCode(m, |m.g|)|
  {
    hide RulesCode;
    RulePart(m, k, |m.g|);
    var rest :| RulesCode(m, |m.g|) == RulesCode(m, k) + RuleCode(m, k) + rest;
  }

  lemma InstanceOfAccepted(m: Mode)
    requires Accepted(m.g)
    ensures WellFormedRules(m.g)
  {
  }

  lemma CorrectedFits(m: Mode)
    requires !m.main
    requires var raw := RulesCode(m, |m.g|); Neat(m.g, raw, 0, |raw|)
    ensures var raw := RulesCode(m, |m.g|);
            var c := CorrectCalls(m, raw);
            Fits(c, 0, |raw|) && LaidOut(c, 0) && Owned(c) && CallsInUse(m.g, c)
  {
    hide LeadsToRet, Progress, Owned;
    var raw := RulesCode(m, |m.g|);
    var c := CorrectCalls(m, raw);
    forall k | 0 <= k < |c|
      ensures HasLabel(c[k]) || c[k].IJmp? ==> 0 <= k + c[k].off <= |raw|
      ensures Size(c[k]) == Size(raw[k]) && (raw[k].Pad? <==> c[k].Pad?) && (c[k].IOpenCall? ==> c[k] == raw[k])
    {
      assert c[k] == CorrectCall(m, raw, k);
      if raw[k].IOpenCall? && raw[k].rule < |m.g| { RuleStartInside(m, raw[k].rule); }
    }
    forall k | 0 <= k < |c|
      ensures k + Size(c[k]) <= |c| && forall j {:trigger c[j]} :: k < j < k + Size(c[k]) ==> c[j].Pad?
    {
      assert raw[k] == raw[k];
      forall j | k < j < k + Size(c[k]) ensures c[j].Pad? { assert raw[j].Pad?; }
    }
    SameOwners(raw, c);
  }

  lemma SameOwners(a: Code, c: Code)
    requires |a| == |c| && Owned(a)
    requires forall k {:trigger c[k]} :: 0 <= k < |c| ==> Size(c[k]) == Size(a[k]) && (a[k].Pad? <==> c[k].Pad?)
    ensures Owned(c)
  {
    hide Size;
    forall k | 0 <= k < |c| && c[k].Pad? ensures exists h :: OwnedBy(c, k, h) {
      assert a[k].Pad?;
      var h :| OwnedBy(a, k, h);
      assert c[h] == c[h];
      assert OwnedBy(c, k, h);
    }
  }

  /** The code of an accepted grammar is neat. */
  lemma NeatGrammar(m: Mode)
    requires !m.main && Accepted(m.g) && RulesSafe(m)
    ensures Neat(m.g, GrammarCode(m), 0, |GrammarCode(m)|)
  {
    hide Emit, Advances, RulesCode, Fits, LaidOut, Owned, CallsInUse, CorrectCalls;
    var raw := RulesCode(m, |m.g|);
    var cc := CorrectCalls(m, raw);
    CorrectedLength(m, raw);
    NeatRules(m, |m.g|, |raw|);
    CorrectedFits(m);
    if |m.g| == 0 { NoRules(m); }
    forall k | 0 <= k < |cc| ensures Advances(cc, k) { CorrectedAdvances(m, k); }
    var hi := 4 + |raw|;
    assert Neat(m.g, cc, 0, |raw|);
    NeatWider(m.g, cc, 0, |raw|, -4, |raw|);
    NeatEmit(m.g, ICall(4), 0, hi);
    NeatEmit(m.g, IJmp(2 + |raw|), -2, hi - 2);
    NeatCat(m.g, Emit(ICall(4)), Emit(IJmp(2 + |raw|)), 0, hi);
    NeatCat(m.g, Emit(ICall(4)) + Emit(IJmp(2 + |raw|)), cc, 0, hi);
  }

  lemma NoRules(m: Mode)
    requires !m.main && |m.g| == 0
    ensures RulesCode(m, 0) == []
  {
  }

  lemma CorrectedLength(m: Mode, raw: Code)
    requires !m.main
    ensures |CorrectCalls(m, raw)| == |raw|
  {
  }

  // ----- whole patterns

  /** The chain of jumps from `k` ends. */
  lemma {:induction false} Settles(c: Code, k: nat) returns (b: nat)
    requires Progress(c) && Fits(c, 0, |c|) && k <= |c|
    ensures forall i: int :: i < 0 || i >= k ==> Settled(c, FinalTarget(c, i, b))
    decreases |c| - k
  {
    if k == |c| {
      b := 0;
    } else {
      var b1 := Settles(c, k + 1);
      assert Advances(c, k);
      var n: nat :| var t := FinalTarget(c, k, n); t > k || StopsAt(c, k, t);
      TargetAdd(c, k, n, b1);
      var t := FinalTarget(c, k, n);
      if t <= k { NoJump(c, t, b1); }
      b := n + b1;
      forall i: int | i < 0 || i >= k ensures Settled(c, FinalTarget(c, i, b)) {
        if i != k { SettledStays(c, i, b1, b); }
      }
    }
  }

  /** The code of an accepted pattern has no cycle of jumps, keeps its labels inside, and is laid out
      in whole instructions. */
  lemma PatternShape(g: Grammar, t: Tree, asWritten: bool) returns (b: nat)
    requires AcceptedPattern(g, t) && RulesSafe(Mode(g, false, asWritten))
    ensures var code := PatternCode(g, t, asWritten);
            NoJumpCycle(code, b) && LabelsInside(code) && LaidOut(code, 0) && Owned(code)
  {
    hide Gen, Emit, GrammarCode, Progress, LaidOut, Owned, CallsInUse, RulesSafe, Accepted;
    var m := Mode(g, true, asWritten);
    var code := PatternCode(g, t, asWritten);
    var c := Gen(m, t, false, NoTest, FULLSET);
    MainHasNoCalls(g, t);
    if g == [] { EmptyGrammarAccepted(); }
    NeatGrammar(m.(main := false));
    NeatTree(m, t, false, NoTest, FULLSET, 0, |c|);
    NeatEmit(g, IEnd, -|c|, 0);
    NeatCat(g, c, Emit(IEnd), 0, |c|);
    NeatWider(g, code, 0, |c|, 0, |code|);
    b := Settles(code, 0);
  }
}
