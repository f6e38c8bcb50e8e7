/**
 When compiling loop bodies under `opt`, as the C text does, makes a difference: exactly for the
 trees with a test-guarded loop whose body reuses the choice of an enclosing optional pattern.
 The two codes are told apart by how many choices they push.
 */
module LoopRepair {
  import opened Peg
  import opened Analysis
  import opened Machine
  import opened CodeGen

  /** Choice instructions in some code. */
  function Choices(c: Code): nat {
    if c == [] then 0 else Choices(c[..|c| - 1]) + if c[|c| - 1].IChoice? then 1 else 0
  }

  lemma {:induction false} ChoicesCat(a: Code, b: Code)
    ensures Choices(a + b) == Choices(a) + Choices(b)
    decreases |b|
  {
    if b == [] {
      assert a + b == a;
    } else {
      var init := b[..|b| - 1];
      assert (a + b)[..|a + b| - 1] == a + init;
      ChoicesCat(a, init);
    }
  }

  lemma {:induction false} ChoicesPads(n: nat)
    ensures Choices(Pads(n)) == 0
    decreases n
  {
    if n > 0 {
      assert Pads(n)[..n - 1] == Pads(n - 1);
      ChoicesPads(n - 1);
    }
  }

  lemma ChoicesEmit(ins: Instr)
    ensures Choices(Emit(ins)) == if ins.IChoice? then 1 else 0
  {
    ChoicesCat([ins], Pads(Size(ins) - 1));
    ChoicesPads(Size(ins) - 1);
    assert [ins][..0] == [];
    assert Choices([ins]) == if ins.IChoice? then 1 else 0;
  }

  lemma ChoicesTest(cs: Charset, e: bool, off: int)
    ensures Choices(CodeTest(cs, e, off)) == 0
  {
    hide CharsetType;
    ChoicesEmit(TestInstr(cs, off));
  }

  lemma ChoicesJmp(p2: Tree, n: nat)
    ensures Choices(JmpOver(p2, n)) == 0
  {
    ChoicesEmit(IJmp(2 + n));
  }

  // ----- choices of a tree, from those of its parts

  lemma ChoicesOfChoice(m: Mode, p1: Tree, p2: Tree, opt: bool, fl: Charset)
    ensures var f1 := First(m.g, p1, FULLSET, DEPTH);
            Choices(GenChoice(m, p1, p2, opt, fl)) ==
              if TestedChoice(m, p1, p2, fl) then
                Choices(Gen(m, p1, false, TestOf(f1.cs, false), fl)) + Choices(Gen(m, p2, opt, NoTest, fl))
              else if opt && p2.TTrue? then Choices(Gen(m, p1, true, NoTest, FULLSET))
              else
                1 + Choices(Gen(m, p1, p2.TTrue?, TestOf(f1.cs, f1.e), FULLSET)) + Choices(Gen(m, p2, opt, NoTest, fl))
  {
    hide First, HeadFail, Gen, CodeTest, Emit, Choices, TestedChoice, TestOf, TestSize, JmpOver;
    var f1 := First(m.g, p1, FULLSET, DEPTH);
    var c2 := Gen(m, p2, opt, NoTest, fl);
    if TestedChoice(m, p1, p2, fl) {
      var c1 := Gen(m, p1, false, TestOf(f1.cs, false), fl);
      var jmp := JmpOver(p2, |c2|);
      var ct := CodeTest(f1.cs, false, TestSize(f1.cs, false) + |c1| + |jmp|);
      ChoicesTest(f1.cs, false, TestSize(f1.cs, false) + |c1| + |jmp|);
      ChoicesJmp(p2, |c2|);
      ChoicesCat(ct, c1);
      ChoicesCat(ct + c1, jmp);
      ChoicesCat(ct + c1 + jmp, c2);
    } else if opt && p2.TTrue? {
      ChoicesEmit(IPartialCommit(2));
      ChoicesCat(Emit(IPartialCommit(2)), Gen(m, p1, true, NoTest, FULLSET));
    } else {
      var c1 := Gen(m, p1, p2.TTrue?, TestOf(f1.cs, f1.e), FULLSET);
      var off := TestSize(f1.cs, f1.e) + 4 + |c1|;
      var ct, ch, cm := CodeTest(f1.cs, f1.e, off), Emit(IChoice(4 + |c1|)), Emit(ICommit(2 + |c2|));
      ChoicesTest(f1.cs, f1.e, off);
      ChoicesEmit(IChoice(4 + |c1|));
      ChoicesEmit(ICommit(2 + |c2|));
      ChoicesCat(ct, ch);
      ChoicesCat(ct + ch, c1);
      ChoicesCat(ct + ch + c1, cm);
      ChoicesCat(ct + ch + c1 + cm, c2);
    }
  }

  lemma ChoicesOfRep(m: Mode, p: Tree, opt: bool, fl: Charset)
    ensures var f := First(m.g, p, FULLSET, DEPTH);
            Choices(GenRep(m, p, opt, fl)) ==
              if ToCharset(p).Some? then 0
              else if TestedLoop(m, p, fl) then Choices(Gen(m, p, m.asWritten && opt, TestOf(f.cs, false), FULLSET))
              else Choices(Gen(m, p, false, NoTest, FULLSET)) + if opt then 0 else 1
  {
    hide First, HeadFail, Gen, GenRep, Choices, TestedLoop, TestOf, RepText, Emit;
    if ToCharset(p).Some? {
      SpanRep(m, p, opt, fl);
      ChoicesEmit(ISpan(ToCharset(p).value));
    } else {
      var f := First(m.g, p, FULLSET, DEPTH);
      var tested := TestedLoop(m, p, fl);
      RepParts(m, p, opt, fl);
      ChoicesOfRepText(f, tested, opt,
        if tested then Gen(m, p, m.asWritten && opt, TestOf(f.cs, false), FULLSET)
        else Gen(m, p, false, NoTest, FULLSET));
    }
  }

  lemma ChoicesOfRepText(f: FirstSet, tested: bool, opt: bool, c: Code)
    ensures Choices(RepText(f, tested, opt, c)) == Choices(c) + if tested || opt then 0 else 1
  {
    hide CodeTest, Emit, Choices, TestSize;
    if tested {
      var sz := TestSize(f.cs, false);
      ChoicesTest(f.cs, false, sz + |c| + 2);
      ChoicesEmit(IJmp(-(sz + |c|)));
      ChoicesCat(CodeTest(f.cs, false, sz + |c| + 2), c);
      ChoicesCat(CodeTest(f.cs, false, sz + |c| + 2) + c, Emit(IJmp(-(sz + |c|))));
    } else {
      var ct := CodeTest(f.cs, f.e, TestSize(f.cs, f.e) + 4 + |c|);
      var open := if opt then Emit(IPartialCommit(2)) else Emit(IChoice(4 + |c|));
      ChoicesTest(f.cs, f.e, TestSize(f.cs, f.e) + 4 + |c|);
      ChoicesEmit(IPartialCommit(2));
      ChoicesEmit(IChoice(4 + |c|));
      ChoicesEmit(IPartialCommit(-|c|));
      ChoicesCat(ct, open);
      ChoicesCat(ct + open, c);
      ChoicesCat(ct + open + c, Emit(IPartialCommit(-|c|)));
    }
  }

  lemma ChoicesOfSeq(m: Mode, p1: Tree, p2: Tree, opt: bool, tt: Test, fl: Charset)
    ensures Choices(Gen(m, TSeq(p1, p2), opt, tt, fl))
         == Choices(Gen(m, p1, false, tt, SeqFollow(m, p1, p2, fl))) + Choices(Gen(m, p2, opt, SeqTest(m, p1, tt), fl))
  {
    hide First, FixedLen, Choices, GenChoice, GenRep, GenNot, GenAnd, GrammarCode, SeqFollow, SeqTest, CodeChar,
        CodeCharset, BehindCode, Emit;
    ChoicesCat(Gen(m, p1, false, tt, SeqFollow(m, p1, p2, fl)), Gen(m, p2, opt, SeqTest(m, p1, tt), fl));
  }

  lemma ChoicesOfLeaf(m: Mode, t: Tree, opt: bool, tt: Test, fl: Charset)
    requires t.TChar? || t.TSet? || t.TAny? || t.TTrue? || t.TFalse? || t.TCall?
    ensures Choices(Gen(m, t, opt, tt, fl)) == 0
  {
    hide CharsetType, Choices, Emit;
    match t
    case TChar(c) => ChoicesChar(c, tt);
    case TSet(cs) => ChoicesCharset(cs, tt);
    case TAny => ChoicesEmit(IAny);
    case TTrue => ChoicesNone();
    case TFalse => ChoicesEmit(IFail);
    case TCall(k) => ChoicesEmit(IOpenCall(k));
  }

  lemma ChoicesNone()
    ensures Choices([]) == 0
  {
  }

  lemma ChoicesChar(c: Byte, tt: Test)
    ensures Choices(CodeChar(c, tt)) == 0
  {
    hide Choices, Emit;
    ChoicesEmit(IAny);
    ChoicesEmit(IChar(c));
  }

  lemma ChoicesCharset(cs: Charset, tt: Test)
    ensures Choices(CodeCharset(cs, tt)) == 0
  {
    hide CharsetType, Choices, Emit, CodeChar;
    ChoicesEmit(IAny);
    ChoicesEmit(ISet(cs));
    ChoicesEmit(IFail);
    forall c ensures Choices(CodeChar(c, tt)) == 0 { ChoicesChar(c, tt); }
  }

  lemma ChoicesOfNot(m: Mode, p: Tree)
    ensures Choices(GenNot(m, p)) ==
              if HeadFail(m.g, p, DEPTH) then 0 else 1 + Choices(Gen(m, p, false, NoTest, FULLSET))
  {
    hide First, HeadFail, Gen, CodeTest, Emit, Choices, TestSize;
    var f := First(m.g, p, FULLSET, DEPTH);
    var sz := TestSize(f.cs, f.e);
    var c := Gen(m, p, false, NoTest, FULLSET);
    if HeadFail(m.g, p, DEPTH) {
      ChoicesTest(f.cs, f.e, sz + 1);
      ChoicesEmit(IFail);
      ChoicesCat(CodeTest(f.cs, f.e, sz + 1), Emit(IFail));
    } else {
      var ct, ch := CodeTest(f.cs, f.e, sz + 2 + |c| + 1), Emit(IChoice(2 + |c| + 1));
      ChoicesTest(f.cs, f.e, sz + 2 + |c| + 1);
      ChoicesEmit(IChoice(2 + |c| + 1));
      ChoicesEmit(IFailTwice);
      ChoicesCat(ct, ch);
      ChoicesCat(ct + ch, c);
      ChoicesCat(ct + ch + c, Emit(IFailTwice));
    }
  }

  lemma ChoicesOfAnd(m: Mode, p: Tree, tt: Test)
    ensures Choices(GenAnd(m, p, tt)) ==
              Choices(Gen(m, p, false, tt, FULLSET)) + if 0 <= FixedLen(m.g, p) <= MAXBEHIND then 0 else 1
  {
    hide FixedLen, Gen, Emit, Choices;
    var n := FixedLen(m.g, p);
    var c := Gen(m, p, false, tt, FULLSET);
    if 0 <= n <= MAXBEHIND {
      ChoicesBehind(n);
      ChoicesCat(c, BehindCode(n));
    } else {
      var ch, bc := Emit(IChoice(2 + |c| + 2)), Emit(IBackCommit(3));
      ChoicesEmit(IChoice(2 + |c| + 2));
      ChoicesEmit(IBackCommit(3));
      ChoicesEmit(IFail);
      ChoicesCat(ch, c);
      ChoicesCat(ch + c, bc);
      ChoicesCat(ch + c + bc, Emit(IFail));
    }
  }

  lemma ChoicesBehind(n: nat)
    ensures Choices(BehindCode(n)) == 0
  {
    ChoicesEmit(IBehind(n));
  }

  // ----- comparing codes

  /** A test that protects the code only spares comparisons. */
  lemma {:induction false} TestKeepsChoices(m: Mode, t: Tree, opt: bool, tt1: Test, tt2: Test, fl: Charset)
    ensures Choices(Gen(m, t, opt, tt1, fl)) == Choices(Gen(m, t, opt, tt2, fl))
  {
    hide First, HeadFail, FixedLen, Choices, GenChoice, GenRep, GenNot, GenAnd;
    match t
    case TSeq(p1, p2) =>
      ChoicesOfSeq(m, p1, p2, opt, tt1, fl);
      ChoicesOfSeq(m, p1, p2, opt, tt2, fl);
      TestKeepsChoices(m, p1, false, tt1, tt2, SeqFollow(m, p1, p2, fl));
      TestKeepsChoices(m, p2, opt, SeqTest(m, p1, tt1), SeqTest(m, p1, tt2), fl);
    case TAnd(p) =>
      ChoicesOfAnd(m, p, tt1);
      ChoicesOfAnd(m, p, tt2);
      TestKeepsChoices(m, p, false, tt1, tt2, FULLSET);
    case TChoice(_, _) =>
    case TRep(_) =>
    case TNot(_) =>
    case TBehind(_, _) =>
    case TGrammar =>
    case _ =>
      ChoicesOfLeaf(m, t, opt, tt1, fl);
      ChoicesOfLeaf(m, t, opt, tt2, fl);
  }

  /** Under `opt` fewer choices are pushed exactly when the choice on the stack is reused. */
  lemma {:induction false} FewerUnderOpt(m: Mode, t: Tree, tt: Test, fl: Charset)
    ensures Choices(Gen(m, t, true, tt, fl)) <= Choices(Gen(m, t, false, tt, fl))
    ensures Shares(m, t, fl) <==> Choices(Gen(m, t, true, tt, fl)) < Choices(Gen(m, t, false, tt, fl))
  {
    hide First, HeadFail, FixedLen, Choices, GenChoice, GenRep, GenNot, GenAnd, TestedChoice, TestedLoop;
    if !Shares(m, t, fl) { SameCodeUnderOpt(m, t, tt, fl); }
    match t
    case TChoice(p1, p2) =>
      ChoicesOfChoice(m, p1, p2, true, fl);
      ChoicesOfChoice(m, p1, p2, false, fl);
      FewerUnderOpt(m, p2, NoTest, fl);
      var f1 := First(m.g, p1, FULLSET, DEPTH);
      TestKeepsChoices(m, p1, true, NoTest, TestOf(f1.cs, f1.e), FULLSET);
    case TRep(p) =>
      ChoicesOfRep(m, p, true, fl);
      ChoicesOfRep(m, p, false, fl);
      FewerUnderOpt(m, p, TestOf(First(m.g, p, FULLSET, DEPTH).cs, false), FULLSET);
    case TSeq(p1, p2) =>
      ChoicesOfSeq(m, p1, p2, true, tt, fl);
      ChoicesOfSeq(m, p1, p2, false, tt, fl);
      FewerUnderOpt(m, p2, SeqTest(m, p1, tt), fl);
    case TNot(_) =>
    case TAnd(_) =>
    case TBehind(_, _) =>
    case TGrammar =>
    case _ =>
  }

  // ----- the literal code against the repaired code

  function Repaired(m: Mode): Mode { m.(asWritten := false) }

  function InRules(m: Mode): Mode { m.(main := false) }

  /** The code of the grammar is part of the code of `t`. */
  predicate EmitsGrammar(g: Grammar, t: Tree) {
    match t
    case TRep(p) => EmitsGrammar(g, p)
    case TSeq(p1, p2) => EmitsGrammar(g, p1) || EmitsGrammar(g, p2)
    case TChoice(p1, p2) => EmitsGrammar(g, p1) || EmitsGrammar(g, p2)
    case TNot(p) => !HeadFail(g, p, DEPTH) && EmitsGrammar(g, p)
    case TAnd(p) => EmitsGrammar(g, p)
    case TBehind(_, p) => EmitsGrammar(g, p)
    case TGrammar => true
    case _ => false
  }

  /** No loop of `t`, or of the rules if their code is part of it, reuses the choice of an enclosing
      pattern. */
  predicate TextSafe(m: Mode, t: Tree, opt: bool, fl: Charset) {
    LoopsSafe(m, t, opt, fl) && (m.main && EmitsGrammar(m.g, t) ==> RulesSafe(InRules(m)))
  }

  lemma FewerInChoice(m: Mode, p1: Tree, p2: Tree, opt: bool, fl: Charset)
    requires m.asWritten
    ensures var t := TChoice(p1, p2);
            && Choices(GenChoice(m, p1, p2, opt, fl)) <= Choices(GenChoice(Repaired(m), p1, p2, opt, fl))
            && (!TextSafe(m, t, opt, fl) ==>
                  Choices(GenChoice(m, p1, p2, opt, fl)) < Choices(GenChoice(Repaired(m), p1, p2, opt, fl)))
    decreases Level(m), TChoice(p1, p2), 0
  {
    hide First, HeadFail, Choices, GenChoice, Gen;
    var r := Repaired(m);
    ChoicesOfChoice(m, p1, p2, opt, fl);
    ChoicesOfChoice(r, p1, p2, opt, fl);
    var f1 := First(m.g, p1, FULLSET, DEPTH);
    if TestedChoice(m, p1, p2, fl) {
      FewerAsWritten(m, p1, false, TestOf(f1.cs, false), fl);
      FewerAsWritten(m, p2, opt, NoTest, fl);
    } else if opt && p2.TTrue? {
      assert !EmitsGrammar(m.g, p2);
      FewerAsWritten(m, p1, true, NoTest, FULLSET);
    } else {
      FewerAsWritten(m, p1, p2.TTrue?, TestOf(f1.cs, f1.e), FULLSET);
      FewerAsWritten(m, p2, opt, NoTest, fl);
    }
  }

  lemma FewerInRep(m: Mode, p: Tree, opt: bool, fl: Charset)
    requires m.asWritten
    ensures var t := TRep(p);
            && Choices(GenRep(m, p, opt, fl)) <= Choices(GenRep(Repaired(m), p, opt, fl))
            && (!TextSafe(m, t, opt, fl) ==> Choices(GenRep(m, p, opt, fl)) < Choices(GenRep(Repaired(m), p, opt, fl)))
    decreases Level(m), TRep(p), 0
  {
    hide First, HeadFail, Choices, GenRep, Gen;
    var r := Repaired(m);
    ChoicesOfRep(m, p, opt, fl);
    ChoicesOfRep(r, p, opt, fl);
    var f := First(m.g, p, FULLSET, DEPTH);
    if ToCharset(p).Some? {
      assert !EmitsGrammar(m.g, p);
    } else {
      if TestedLoop(m, p, fl) {
        FewerUnderOpt(m, p, TestOf(f.cs, false), FULLSET);
        FewerAsWritten(m, p, false, TestOf(f.cs, false), FULLSET);
      } else {
        FewerAsWritten(m, p, false, NoTest, FULLSET);
      }
    }
  }

  /** The literal code never pushes more choices than the repaired one, and pushes fewer if a loop
      body reuses a choice. */
  lemma {:induction false} FewerAsWritten(m: Mode, t: Tree, opt: bool, tt: Test, fl: Charset)
    requires m.asWritten
    ensures Choices(Gen(m, t, opt, tt, fl)) <= Choices(Gen(Repaired(m), t, opt, tt, fl))
    ensures !TextSafe(m, t, opt, fl) ==> Choices(Gen(m, t, opt, tt, fl)) < Choices(Gen(Repaired(m), t, opt, tt, fl))
    decreases Level(m), t, 1
  {
    hide First, HeadFail, FixedLen, Choices, GenChoice, GenRep, GenNot, GenAnd, BehindCode;
    var r := Repaired(m);
    match t
    case TChoice(p1, p2) => FewerInChoice(m, p1, p2, opt, fl);
    case TRep(p) => FewerInRep(m, p, opt, fl);
    case TSeq(p1, p2) =>
      ChoicesOfSeq(m, p1, p2, opt, tt, fl);
      ChoicesOfSeq(r, p1, p2, opt, tt, fl);
      FewerAsWritten(m, p1, false, tt, SeqFollow(m, p1, p2, fl));
      FewerAsWritten(m, p2, opt, SeqTest(m, p1, tt), fl);
    case TNot(p) =>
      ChoicesOfNot(m, p);
      ChoicesOfNot(r, p);
      FewerAsWritten(m, p, false, NoTest, FULLSET);
    case TAnd(p) =>
      ChoicesOfAnd(m, p, tt);
      ChoicesOfAnd(r, p, tt);
      FewerAsWritten(m, p, false, tt, FULLSET);
    case TBehind(n, p) =>
      ChoicesCat(BehindCode(n), Gen(m, p, false, NoTest, FULLSET));
      ChoicesCat(BehindCode(n), Gen(r, p, false, NoTest, FULLSET));
      FewerAsWritten(m, p, false, NoTest, FULLSET);
    case TGrammar => if m.main { FewerInGrammar(InRules(m)); }
    case _ =>
      ChoicesOfLeaf(m, t, opt, tt, fl);
      ChoicesOfLeaf(r, t, opt, tt, fl);
  }

  /** The code of a choice from those of its parts. */
  function ChoiceText(f1: FirstSet, tested: bool, shared: bool, p2: Tree, c1: Code, c2: Code): Code {
    if tested then
      CodeTest(f1.cs, false, TestSize(f1.cs, false) + |c1| + |JmpOver(p2, |c2|)|) + c1 + JmpOver(p2, |c2|) + c2
    else if shared then Emit(IPartialCommit(2)) + c1
    else
      CodeTest(f1.cs, f1.e, TestSize(f1.cs, f1.e) + 4 + |c1|)
        + Emit(IChoice(4 + |c1|)) + c1 + Emit(ICommit(2 + |c2|)) + c2
  }

  ghost function FirstPart(m: Mode, p1: Tree, p2: Tree, opt: bool, fl: Charset): Code {
    var f1 := First(m.g, p1, FULLSET, DEPTH);
    if TestedChoice(m, p1, p2, fl) then Gen(m, p1, false, TestOf(f1.cs, false), fl)
    else if opt && p2.TTrue? then Gen(m, p1, true, NoTest, FULLSET)
    else Gen(m, p1, p2.TTrue?, TestOf(f1.cs, f1.e), FULLSET)
  }

  lemma ChoiceParts(m: Mode, p1: Tree, p2: Tree, opt: bool, fl: Charset)
    ensures GenChoice(m, p1, p2, opt, fl) ==
              ChoiceText(First(m.g, p1, FULLSET, DEPTH), TestedChoice(m, p1, p2, fl), opt && p2.TTrue?, p2,
                FirstPart(m, p1, p2, opt, fl), Gen(m, p2, opt, NoTest, fl))
  {
    hide First, HeadFail, CodeTest, Emit, TestedChoice, TestOf, TestSize, Gen, JmpOver;
  }

  lemma {:induction false} SameChoices(a: Code, c: Code)
    requires |a| == |c| && forall k :: 0 <= k < |a| ==> a[k].IChoice? == c[k].IChoice?
    ensures Choices(a) == Choices(c)
    decreases |a|
  {
    if a != [] { SameChoices(a[..|a| - 1], c[..|c| - 1]); }
  }

  lemma ChoicesOfGrammar(m: Mode)
    requires !m.main
    ensures Choices(GrammarCode(m)) == Choices(RulesCode(m, |m.g|))
  {
    hide Choices, RulesCode, LeadsToRet, RuleStart, Emit;
    var raw := RulesCode(m, |m.g|);
    var c := CorrectCalls(m, raw);
    forall k | 0 <= k < |raw| ensures raw[k].IChoice? == c[k].IChoice? { assert c[k] == CorrectCall(m, raw, k); }
    SameChoices(raw, c);
    ChoicesEmit(ICall(4));
    ChoicesEmit(IJmp(2 + |raw|));
    ChoicesCat(Emit(ICall(4)), Emit(IJmp(2 + |raw|)));
    ChoicesCat(Emit(ICall(4)) + Emit(IJmp(2 + |raw|)), c);
  }

  lemma {:induction false} FewerInRules(m: Mode, n: nat)
    requires m.asWritten && !m.main && n <= |m.g|
    ensures Choices(RulesCode(m, n)) <= Choices(RulesCode(Repaired(m), n))
    ensures (exists k :: 0 <= k < n && !LoopsSafe(m, m.g[k], false, FULLSET)) ==>
              Choices(RulesCode(m, n)) < Choices(RulesCode(Repaired(m), n))
    decreases 1, TGrammar, 0, n
  {
    hide Gen, Choices, LoopsSafe, Emit;
    if n > 0 {
      var r, t := Repaired(m), m.g[n - 1];
      FewerInRules(m, n - 1);
      FewerAsWritten(m, t, false, NoTest, FULLSET);
      ChoicesEmit(IRet);
      ChoicesCat(Gen(m, t, false, NoTest, FULLSET), Emit(IRet));
      ChoicesCat(Gen(r, t, false, NoTest, FULLSET), Emit(IRet));
      ChoicesCat(RulesCode(m, n - 1), RuleCode(m, n - 1));
      ChoicesCat(RulesCode(r, n - 1), RuleCode(r, n - 1));
    }
  }

  lemma FewerInGrammar(m: Mode)
    requires m.asWritten && !m.main
    ensures Choices(GrammarCode(m)) <= Choices(GrammarCode(Repaired(m)))
    ensures !RulesSafe(m) ==> Choices(GrammarCode(m)) < Choices(GrammarCode(Repaired(m)))
    decreases 1, TGrammar, 1
  {
    hide Choices, GrammarCode, RulesCode, LoopsSafe;
    ChoicesOfGrammar(m);
    ChoicesOfGrammar(Repaired(m));
    FewerInRules(m, |m.g|);
  }

  lemma SafeChoice(m: Mode, p1: Tree, p2: Tree, opt: bool, fl: Charset)
    requires m.asWritten && TextSafe(m, TChoice(p1, p2), opt, fl)
    ensures GenChoice(m, p1, p2, opt, fl) == GenChoice(Repaired(m), p1, p2, opt, fl)
    decreases Level(m), TChoice(p1, p2), 0
  {
    hide First, HeadFail, ChoiceText, TestedChoice, TestOf, Gen, GenChoice;
    var r := Repaired(m);
    SameTests(m, p1, p2, fl);
    ChoiceParts(m, p1, p2, opt, fl);
    ChoiceParts(r, p1, p2, opt, fl);
    var f1 := First(m.g, p1, FULLSET, DEPTH);
    if TestedChoice(m, p1, p2, fl) {
      SafeIsRepaired(m, p1, false, TestOf(f1.cs, false), fl);
      SafeIsRepaired(m, p2, opt, NoTest, fl);
    } else if opt && p2.TTrue? {
      SafeIsRepaired(m, p1, true, NoTest, FULLSET);
      OptionalRest(m, opt, fl);
      OptionalRest(r, opt, fl);
    } else {
      SafeIsRepaired(m, p1, p2.TTrue?, TestOf(f1.cs, f1.e), FULLSET);
      SafeIsRepaired(m, p2, opt, NoTest, fl);
    }
  }

  lemma OptionalRest(m: Mode, opt: bool, fl: Charset)
    ensures Gen(m, TTrue, opt, NoTest, fl) == []
  {
  }

  /** The code of a repetition that is no span from that of its body. */
  function RepText(f: FirstSet, tested: bool, opt: bool, c: Code): Code {
    if tested then
      CodeTest(f.cs, false, TestSize(f.cs, false) + |c| + 2) + c + Emit(IJmp(-(TestSize(f.cs, false) + |c|)))
    else
      CodeTest(f.cs, f.e, TestSize(f.cs, f.e) + 4 + |c|)
        + (if opt then Emit(IPartialCommit(2)) else Emit(IChoice(4 + |c|)))
        + c + Emit(IPartialCommit(-|c|))
  }

  lemma RepParts(m: Mode, p: Tree, opt: bool, fl: Charset)
    requires ToCharset(p).None?
    ensures var f := First(m.g, p, FULLSET, DEPTH);
            var tested := TestedLoop(m, p, fl);
            GenRep(m, p, opt, fl) ==
              RepText(f, tested, opt,
                if tested then Gen(m, p, m.asWritten && opt, TestOf(f.cs, false), FULLSET)
                else Gen(m, p, false, NoTest, FULLSET))
  {
    hide First, HeadFail, CodeTest, Emit, TestedLoop, TestOf, TestSize, Gen, ToCharset;
  }

  lemma SafeRep(m: Mode, p: Tree, opt: bool, fl: Charset)
    requires m.asWritten && TextSafe(m, TRep(p), opt, fl) && ToCharset(p).None?
    ensures GenRep(m, p, opt, fl) == GenRep(Repaired(m), p, opt, fl)
    decreases Level(m), TRep(p), 0
  {
    hide First, HeadFail, RepText, TestedLoop, TestOf, Gen, GenRep;
    SameTests(m, p, p, fl);
    RepParts(m, p, opt, fl);
    RepParts(Repaired(m), p, opt, fl);
    var f := First(m.g, p, FULLSET, DEPTH);
    SafeIsRepaired(m, p, false, TestOf(f.cs, false), FULLSET);
    SafeIsRepaired(m, p, false, NoTest, FULLSET);
    if opt && TestedLoop(m, p, fl) { SameCodeUnderOpt(m, p, TestOf(f.cs, false), FULLSET); }
  }

  lemma SpanRep(m: Mode, p: Tree, opt: bool, fl: Charset)
    requires ToCharset(p).Some?
    ensures GenRep(m, p, opt, fl) == Emit(ISpan(ToCharset(p).value))
  {
  }

  lemma {:induction false} SafeIsRepaired(m: Mode, t: Tree, opt: bool, tt: Test, fl: Charset)
    requires m.asWritten && TextSafe(m, t, opt, fl)
    ensures Gen(m, t, opt, tt, fl) == Gen(Repaired(m), t, opt, tt, fl)
    decreases Level(m), t, 1
  {
    hide First, HeadFail, FixedLen, Emit, GenChoice, GenRep, GenNot, GenAnd, CodeChar, CodeCharset, BehindCode;
    match t
    case TChoice(p1, p2) => SafeChoice(m, p1, p2, opt, fl);
    case TRep(p) =>
      if ToCharset(p).Some? {
        SpanRep(m, p, opt, fl);
        SpanRep(Repaired(m), p, opt, fl);
      } else {
        SafeRep(m, p, opt, fl);
      }
    case TSeq(p1, p2) =>
      SafeIsRepaired(m, p1, false, tt, SeqFollow(m, p1, p2, fl));
      SafeIsRepaired(m, p2, opt, SeqTest(m, p1, tt), fl);
    case TNot(p) => SafeNot(m, p);
    case TAnd(p) => SafeAnd(m, p, tt);
    case TBehind(n, p) => SafeIsRepaired(m, p, false, NoTest, FULLSET);
    case TGrammar => if m.main { SafeGrammar(InRules(m)); }
    case _ =>
  }

  lemma {:induction false} SafeRules(m: Mode, n: nat)
    requires m.asWritten && !m.main && RulesSafe(m) && n <= |m.g|
    ensures RulesCode(m, n) == RulesCode(Repaired(m), n)
    decreases 1, TGrammar, 0, n
  {
    hide Gen, LoopsSafe, Emit;
    if n > 0 {
      SafeRules(m, n - 1);
      SafeIsRepaired(m, m.g[n - 1], false, NoTest, FULLSET);
    }
  }

  lemma SafeGrammar(m: Mode)
    requires m.asWritten && !m.main && RulesSafe(m)
    ensures GrammarCode(m) == GrammarCode(Repaired(m))
    decreases 1, TGrammar, 1
  {
    hide RulesCode, LoopsSafe, LeadsToRet, Emit;
    var raw, r := RulesCode(m, |m.g|), Repaired(m);
    SafeRules(m, |m.g|);
    forall k | 0 <= k < |raw| ensures CorrectCall(m, raw, k) == CorrectCall(r, raw, k) {
      if raw[k].IOpenCall? && raw[k].rule < |m.g| { SafeRules(m, raw[k].rule); }
    }
    assert CorrectCalls(m, raw) == CorrectCalls(r, raw);
  }

  function NotText(f: FirstSet, headFail: bool, c: Code): Code {
    if headFail then CodeTest(f.cs, f.e, TestSize(f.cs, f.e) + 1) + Emit(IFail)
    else CodeTest(f.cs, f.e, TestSize(f.cs, f.e) + 2 + |c| + 1) + Emit(IChoice(2 + |c| + 1)) + c + Emit(IFailTwice)
  }

  lemma NotParts(m: Mode, p: Tree)
    ensures GenNot(m, p) == NotText(First(m.g, p, FULLSET, DEPTH), HeadFail(m.g, p, DEPTH),
            Gen(m, p, false, NoTest, FULLSET))
  {
    hide First, HeadFail, CodeTest, Emit, TestSize, Gen;
  }

  lemma SafeNot(m: Mode, p: Tree)
    requires m.asWritten && TextSafe(m, TNot(p), false, FULLSET)
    ensures GenNot(m, p) == GenNot(Repaired(m), p)
    decreases Level(m), TNot(p), 0
  {
    hide First, HeadFail, NotText, Gen, GenNot;
    NotParts(m, p);
    NotParts(Repaired(m), p);
    if HeadFail(m.g, p, DEPTH) {
      HeadNot(First(m.g, p, FULLSET, DEPTH), Gen(m, p, false, NoTest, FULLSET),
          Gen(Repaired(m), p, false, NoTest, FULLSET));
    } else {
      SafeIsRepaired(m, p, false, NoTest, FULLSET);
    }
  }

  lemma HeadNot(f: FirstSet, c1: Code, c2: Code)
    ensures NotText(f, true, c1) == NotText(f, true, c2)
  {
    hide CodeTest, Emit, TestSize;
  }

  function AndText(n: int, c: Code): Code {
    if 0 <= n <= MAXBEHIND then c + BehindCode(n)
    else Emit(IChoice(2 + |c| + 2)) + c + Emit(IBackCommit(3)) + Emit(IFail)
  }

  lemma AndParts(m: Mode, p: Tree, tt: Test)
    ensures GenAnd(m, p, tt) == AndText(FixedLen(m.g, p), Gen(m, p, false, tt, FULLSET))
  {
    hide FixedLen, Emit, BehindCode, Gen;
  }

  lemma SafeAnd(m: Mode, p: Tree, tt: Test)
    requires m.asWritten && TextSafe(m, TAnd(p), false, FULLSET)
    ensures GenAnd(m, p, tt) == GenAnd(Repaired(m), p, tt)
    decreases Level(m), TAnd(p), 0
  {
    hide FixedLen, AndText, Gen, GenAnd;
    AndParts(m, p, tt);
    AndParts(Repaired(m), p, tt);
    SafeIsRepaired(m, p, false, tt, FULLSET);
  }

  lemma SameTests(m: Mode, p1: Tree, p2: Tree, fl: Charset)
    ensures TestedChoice(Repaired(m), p1, p2, fl) == TestedChoice(m, p1, p2, fl)
    ensures TestedLoop(Repaired(m), p1, fl) == TestedLoop(m, p1, fl)
  {
    hide First, HeadFail;
  }

  /** The literal code of a tree is the repaired code if and only if no test-guarded loop reuses the
      choice of an enclosing pattern, in the tree or in the rules that are compiled with it. */
  lemma LiteralIsRepaired(m: Mode, t: Tree, opt: bool, tt: Test, fl: Charset)
    requires m.asWritten
    ensures Gen(m, t, opt, tt, fl) == Gen(Repaired(m), t, opt, tt, fl) <==> TextSafe(m, t, opt, fl)
  {
    hide Gen, TextSafe, Choices;
    FewerAsWritten(m, t, opt, tt, fl);
    if TextSafe(m, t, opt, fl) { SafeIsRepaired(m, t, opt, tt, fl); }
  }

  /** The same of whole patterns, grammar included. */
  lemma LiteralPattern(g: Grammar, t: Tree)
    ensures PatternCode(g, t, true) == PatternCode(g, t, false) <==>
            && LoopsSafe(Mode(g, true, true), t, false, FULLSET)
            && (EmitsGrammar(g, t) ==> RulesSafe(Mode(g, false, true)))
  {
    hide Gen, LoopsSafe, RulesSafe, EmitsGrammar;
    LiteralIsRepaired(Mode(g, true, true), t, false, NoTest, FULLSET);
    var a := Gen(Mode(g, true, true), t, false, NoTest, FULLSET);
    var c := Gen(Mode(g, true, false), t, false, NoTest, FULLSET);
    if a + Emit(IEnd) == c + Emit(IEnd) {
      assert a == (a + Emit(IEnd))[..|a + Emit(IEnd)| - |Emit(IEnd)|];
      assert c == (c + Emit(IEnd))[..|c + Emit(IEnd)| - |Emit(IEnd)|];
    }
  }
}
