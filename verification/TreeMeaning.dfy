module TreeMeaning {
  /** The rebuilt trees mean the same: associativity, and repetition. */

  import opened Peg
  import opened FlatTree

  // ----- meaning of a node from the meaning of its children

  lemma MeansFuel(g: Grammar, t: Tree, s: Subject, i: nat, r: Outcome) returns (n: nat)
    requires i <= |s| && Means(g, t, s, i, r)
    ensures forall m | n <= m :: Eval(g, t, s, i, m) == r
  {
    n :| Eval(g, t, s, i, n) == r;
    forall m | n <= m ensures Eval(g, t, s, i, m) == r { FuelIrrelevant(g, t, s, i, n, m); }
  }

  lemma SeqMeans(g: Grammar, a: Tree, b: Tree, s: Subject, i: nat, ra: Outcome, r: Outcome)
    requires i <= |s| && Means(g, a, s, i, ra)
    requires if ra.Ok? then ra.pos <= |s| && Means(g, b, s, ra.pos, r) else r == Fail
    ensures Means(g, TSeq(a, b), s, i, r)
  {
    var n := MeansFuel(g, a, s, i, ra);
    if ra.Ok? {
      var m := MeansFuel(g, b, s, ra.pos, r);
      assert Eval(g, TSeq(a, b), s, i, n + m + 1) == r;
    } else {
      assert Eval(g, TSeq(a, b), s, i, n + 1) == r;
    }
  }

  lemma ChoiceMeans(g: Grammar, a: Tree, b: Tree, s: Subject, i: nat, ra: Outcome, r: Outcome)
    requires i <= |s| && Means(g, a, s, i, ra)
    requires if ra.Fail? then Means(g, b, s, i, r) else r == ra
    ensures Means(g, TChoice(a, b), s, i, r)
  {
    var n := MeansFuel(g, a, s, i, ra);
    if ra.Fail? {
      var m := MeansFuel(g, b, s, i, r);
      assert Eval(g, TChoice(a, b), s, i, n + m + 1) == r;
    } else {
      assert Eval(g, TChoice(a, b), s, i, n + 1) == r;
    }
  }

  lemma RepMeans(g: Grammar, p: Tree, s: Subject, i: nat, rp: Outcome, r: Outcome)
    requires i <= |s| && Means(g, p, s, i, rp)
    requires if rp.Ok? then rp.pos <= |s| && Means(g, TRep(p), s, rp.pos, r) else r == Ok(i)
    ensures Means(g, TRep(p), s, i, r)
  {
    var n := MeansFuel(g, p, s, i, rp);
    if rp.Ok? {
      var m := MeansFuel(g, TRep(p), s, rp.pos, r);
      assert Eval(g, TRep(p), s, i, n + m + 1) == r;
    } else {
      assert Eval(g, TRep(p), s, i, n + 1) == r;
    }
  }

  /** What a predicate or a look-behind makes of the outcome of its child. */
  function TestOutcome(t: Tree, i: nat, r: Outcome): Outcome
    requires t.TNot? || t.TAnd? || t.TBehind?
  {
    match t
    case TNot(_) => if r.Fail? then Ok(i) else Fail
    case TAnd(_) => if r.Fail? then Fail else Ok(i)
    case TBehind(_, _) => if r == Ok(i) then Ok(i) else Fail
  }

  lemma TestMeans(g: Grammar, t: Tree, s: Subject, i: nat, r: Outcome)
    requires i <= |s| && (t.TNot? || t.TAnd? || (t.TBehind? && t.n <= i))
    requires Means(g, t.p, s, if t.TBehind? then i - t.n else i, r)
    ensures Means(g, t, s, i, TestOutcome(t, i, r))
  {
    var n := MeansFuel(g, t.p, s, if t.TBehind? then i - t.n else i, r);
    assert Eval(g, t, s, i, n + 1) == TestOutcome(t, i, r);
  }

  lemma CallMeans(g: Grammar, t: Tree, s: Subject, i: nat, r: Outcome)
    requires i <= |s|
    requires (t.TCall? && t.rule < |g| && Means(g, g[t.rule], s, i, r))
             || (t.TGrammar? && 0 < |g| && Means(g, g[0], s, i, r))
    ensures Means(g, t, s, i, r)
  {
    var n := MeansFuel(g, g[if t.TCall? then t.rule else 0], s, i, r);
    assert Eval(g, t, s, i, n + 1) == r;
  }

  // ----- associativity

  function FixAll(g: Grammar): Grammar { seq(|g|, k requires 0 <= k < |g| => Fix(g[k])) }

  /** A sequence whose first part is known to come out of `a`. */
  lemma {:induction false} FixSeq(g: Grammar, a: Tree, b: Tree, s: Subject, i: nat, n: nat, r: Outcome)
    requires i <= |s|
    requires var ra := Eval(g, a, s, i, n);
             !ra.OutOfFuel? && if ra.Ok? then Means(FixAll(g), Fix(b), s, ra.pos, r) else r == Fail
    ensures Means(FixAll(g), Fix(TSeq(a, b)), s, i, r)
    decreases n, 1
  {
    hide Means, FixAll, Fix;
    var ra := Eval(g, a, s, i, n);
    if a.TSeq? {
      SameFix(TSeq(a, b));
      var r1 := Eval(g, a.p1, s, i, n - 1);
      if r1.Ok? { FixSeq(g, a.p2, b, s, r1.pos, n - 1, r); }
      FixSeq(g, a.p1, TSeq(a.p2, b), s, i, n - 1, r);
    } else {
      FixMeans(g, a, s, i, n);
      SeqMeans(FixAll(g), Fix(a), Fix(b), s, i, ra, r);
      FixedOp(TSeq(a, b));
    }
  }

  lemma {:induction false} FixChoice(g: Grammar, a: Tree, b: Tree, s: Subject, i: nat, n: nat, r: Outcome)
    requires i <= |s|
    requires var ra := Eval(g, a, s, i, n);
             !ra.OutOfFuel? && if ra.Fail? then Means(FixAll(g), Fix(b), s, i, r) else r == ra
    ensures Means(FixAll(g), Fix(TChoice(a, b)), s, i, r)
    decreases n, 1
  {
    hide Means, FixAll, Fix;
    var ra := Eval(g, a, s, i, n);
    if a.TChoice? {
      SameFix(TChoice(a, b));
      var r1 := Eval(g, a.p1, s, i, n - 1);
      if r1.Fail? { FixChoice(g, a.p2, b, s, i, n - 1, r); }
      FixChoice(g, a.p1, TChoice(a.p2, b), s, i, n - 1, r);
    } else {
      FixMeans(g, a, s, i, n);
      ChoiceMeans(FixAll(g), Fix(a), Fix(b), s, i, ra, r);
      FixedOp(TChoice(a, b));
    }
  }

  /** Rotating before fixing makes no difference. */
  lemma SameFix(t: Tree)
    requires IsOp(t) && SameOp(t.p1, t)
    ensures Fix(t) == Fix(RotateOnce(t))
  {
    hide Flatten;
    assert Rotate(t) == Rotate(RotateOnce(t));
  }

  lemma FixedOp(t: Tree)
    requires IsOp(t) && !SameOp(t.p1, t)
    ensures Fix(t) == Op(t, Fix(t.p1), Fix(t.p2))
  {
    hide Flatten;
    assert Rotate(t) == t;
  }

  /** What a tree does its fixed form does, in the grammar of the fixed rules. */
  lemma {:induction false} FixMeans(g: Grammar, t: Tree, s: Subject, i: nat, n: nat)
    requires i <= |s| && !Eval(g, t, s, i, n).OutOfFuel?
    ensures Means(FixAll(g), Fix(t), s, i, Eval(g, t, s, i, n))
    decreases n, 0
  {
    hide FixAll, Fix, Means;
    var h, r := FixAll(g), Eval(g, t, s, i, n);
    FixedCases(t);
    match t
    case TSeq(a, b) =>
      var ra := Eval(g, a, s, i, n - 1);
      if ra.Ok? { FixMeans(g, b, s, ra.pos, n - 1); }
      FixSeq(g, a, b, s, i, n - 1, r);
    case TChoice(a, b) =>
      if Eval(g, a, s, i, n - 1).Fail? { FixMeans(g, b, s, i, n - 1); }
      FixChoice(g, a, b, s, i, n - 1, r);
    case TRep(p) =>
      var rp := Eval(g, p, s, i, n - 1);
      FixMeans(g, p, s, i, n - 1);
      if rp.Ok? { FixMeans(g, t, s, rp.pos, n - 1); }
      RepMeans(h, Fix(p), s, i, rp, r);
    case TNot(p) => FixTest(g, t, s, i, n);
    case TAnd(p) => FixTest(g, t, s, i, n);
    case TBehind(m, p) => FixTest(g, t, s, i, n);
    case TCall(k) => FixCall(g, t, s, i, n);
    case TGrammar => FixCall(g, t, s, i, n);
    case _ => LeafMeans(g, h, t, s, i, n);
  }

  lemma FixedCases(t: Tree)
    ensures IsUnary(t) ==> Fix(t) == Wrap(t, Fix(t.p))
    ensures !IsOp(t) && !IsUnary(t) ==> Fix(t) == t
  {
  }

  lemma LeafMeans(g: Grammar, h: Grammar, t: Tree, s: Subject, i: nat, n: nat)
    requires i <= |s| && n > 0 && !IsOp(t) && !IsUnary(t) && !t.TCall? && !t.TGrammar?
    ensures Means(h, t, s, i, Eval(g, t, s, i, n))
  {
    assert Eval(h, t, s, i, 1) == Eval(g, t, s, i, n);
  }

  lemma {:induction false} FixTest(g: Grammar, t: Tree, s: Subject, i: nat, n: nat)
    requires i <= |s| && !Eval(g, t, s, i, n).OutOfFuel? && (t.TNot? || t.TAnd? || t.TBehind?)
    ensures Means(FixAll(g), Fix(t), s, i, Eval(g, t, s, i, n))
    decreases n, 0, 0
  {
    hide FixAll, Means;
    FixedCases(t);
    var h := FixAll(g);
    if t.TBehind? && i < t.n {
      BehindFails(h, Fix(t), s, i);
    } else {
      var j := if t.TBehind? then i - t.n else i;
      FixMeans(g, t.p, s, j, n - 1);
      TestMeans(h, Fix(t), s, i, Eval(g, t.p, s, j, n - 1));
    }
  }

  lemma BehindFails(g: Grammar, t: Tree, s: Subject, i: nat)
    requires i <= |s| && t.TBehind? && i < t.n
    ensures Means(g, t, s, i, Fail)
  {
    assert Eval(g, t, s, i, 1) == Fail;
  }

  lemma {:induction false} FixCall(g: Grammar, t: Tree, s: Subject, i: nat, n: nat)
    requires i <= |s| && !Eval(g, t, s, i, n).OutOfFuel? && (t.TCall? || t.TGrammar?)
    ensures Means(FixAll(g), Fix(t), s, i, Eval(g, t, s, i, n))
    decreases n, 0, 0
  {
    var h := FixAll(g);
    var k := if t.TCall? then t.rule else 0;
    if k < |g| {
      FixMeans(g, g[k], s, i, n - 1);
      CallMeans(h, t, s, i, Eval(g, t, s, i, n));
    } else {
      assert Eval(h, t, s, i, 1) == Fail;
    }
  }

  // ----- and back

  lemma AssocSeq(g: Grammar, a: Tree, b: Tree, c: Tree, s: Subject, i: nat, r: Outcome)
    requires i <= |s| && Means(g, TSeq(a, TSeq(b, c)), s, i, r)
    ensures Means(g, TSeq(TSeq(a, b), c), s, i, r)
  {
    var n: nat :| Eval(g, TSeq(a, TSeq(b, c)), s, i, n) == r;
    var ra := Eval(g, a, s, i, n - 1);
    if ra.Fail? {
      SeqMeans(g, a, b, s, i, ra, Fail);
      SeqMeans(g, TSeq(a, b), c, s, i, Fail, r);
    } else {
      assert Eval(g, TSeq(b, c), s, ra.pos, n - 1) == r;
      var rb := Eval(g, b, s, ra.pos, n - 2);
      SeqMeans(g, a, b, s, i, ra, rb);
      if rb.Ok? { assert Eval(g, c, s, rb.pos, n - 2) == r; }
      SeqMeans(g, TSeq(a, b), c, s, i, rb, r);
    }
  }

  lemma AssocChoice(g: Grammar, a: Tree, b: Tree, c: Tree, s: Subject, i: nat, r: Outcome)
    requires i <= |s| && Means(g, TChoice(a, TChoice(b, c)), s, i, r)
    ensures Means(g, TChoice(TChoice(a, b), c), s, i, r)
  {
    var n: nat :| Eval(g, TChoice(a, TChoice(b, c)), s, i, n) == r;
    var ra := Eval(g, a, s, i, n - 1);
    if ra.Ok? {
      ChoiceMeans(g, a, b, s, i, ra, ra);
      ChoiceMeans(g, TChoice(a, b), c, s, i, ra, r);
    } else {
      assert Eval(g, TChoice(b, c), s, i, n - 1) == r;
      var rb := Eval(g, b, s, i, n - 2);
      ChoiceMeans(g, a, b, s, i, ra, rb);
      if rb.Fail? { assert Eval(g, c, s, i, n - 2) == r; }
      ChoiceMeans(g, TChoice(a, b), c, s, i, rb, r);
    }
  }

  /** What a fixed form does the tree does, in the grammar of the rules before they were fixed. */
  lemma {:induction false} UnfixMeans(g: Grammar, t: Tree, s: Subject, i: nat, n: nat)
    requires i <= |s| && !Eval(FixAll(g), Fix(t), s, i, n).OutOfFuel?
    ensures Means(g, t, s, i, Eval(FixAll(g), Fix(t), s, i, n))
    decreases n, if IsOp(t) then t.p1 else t
  {
    hide FixAll, Fix, Means;
    var h, f := FixAll(g), Fix(t);
    var r := Eval(h, f, s, i, n);
    FixedCases(t);
    if IsOp(t) && SameOp(t.p1, t) {
      SameFix(t);
      UnfixMeans(g, RotateOnce(t), s, i, n);
      if t.TSeq? {
        AssocSeq(g, t.p1.p1, t.p1.p2, t.p2, s, i, r);
      } else {
        AssocChoice(g, t.p1.p1, t.p1.p2, t.p2, s, i, r);
      }
    } else if IsOp(t) {
      FixedOp(t);
      var ra := Eval(h, f.p1, s, i, n - 1);
      UnfixMeans(g, t.p1, s, i, n - 1);
      if t.TSeq? {
        if ra.Ok? { UnfixMeans(g, t.p2, s, ra.pos, n - 1); }
        SeqMeans(g, t.p1, t.p2, s, i, ra, r);
      } else {
        if ra.Fail? { UnfixMeans(g, t.p2, s, i, n - 1); }
        ChoiceMeans(g, t.p1, t.p2, s, i, ra, r);
      }
    } else if t.TRep? {
      var rp := Eval(h, f.p, s, i, n - 1);
      UnfixMeans(g, t.p, s, i, n - 1);
      if rp.Ok? { UnfixMeans(g, t, s, rp.pos, n - 1); }
      RepMeans(g, t.p, s, i, rp, r);
    } else if IsUnary(t) {
      UnfixTest(g, t, s, i, n);
    } else if t.TCall? || t.TGrammar? {
      UnfixCall(g, t, s, i, n);
    } else {
      LeafMeans(h, g, t, s, i, n);
    }
  }

  lemma {:induction false} UnfixTest(g: Grammar, t: Tree, s: Subject, i: nat, n: nat)
    requires i <= |s| && !Eval(FixAll(g), Fix(t), s, i, n).OutOfFuel? && (t.TNot? || t.TAnd? || t.TBehind?)
    ensures Means(g, t, s, i, Eval(FixAll(g), Fix(t), s, i, n))
    decreases n, t, 0
  {
    hide FixAll, Means;
    FixedCases(t);
    if t.TBehind? && i < t.n {
      BehindFails(g, t, s, i);
    } else {
      var j := if t.TBehind? then i - t.n else i;
      UnfixMeans(g, t.p, s, j, n - 1);
      TestMeans(g, t, s, i, Eval(FixAll(g), Fix(t.p), s, j, n - 1));
    }
  }

  lemma {:induction false} UnfixCall(g: Grammar, t: Tree, s: Subject, i: nat, n: nat)
    requires i <= |s| && !Eval(FixAll(g), Fix(t), s, i, n).OutOfFuel? && (t.TCall? || t.TGrammar?)
    ensures Means(g, t, s, i, Eval(FixAll(g), Fix(t), s, i, n))
    decreases n, t, 0
  {
    var h := FixAll(g);
    var k := if t.TCall? then t.rule else 0;
    if k < |g| {
      UnfixMeans(g, g[k], s, i, n - 1);
      CallMeans(g, t, s, i, Eval(h, t, s, i, n));
    } else {
      assert Eval(g, t, s, i, 1) == Fail;
    }
  }

  /** Making a pattern and its rules right associative keeps every outcome, and adds none. */
  lemma FixKeepsMeaning(g: Grammar, t: Tree, s: Subject, i: nat, r: Outcome)
    requires i <= |s|
    ensures Means(g, t, s, i, r) <==> Means(FixAll(g), Fix(t), s, i, r)
  {
    if Means(g, t, s, i, r) {
      var n: nat :| Eval(g, t, s, i, n) == r;
      FixMeans(g, t, s, i, n);
    }
    if Means(FixAll(g), Fix(t), s, i, r) {
      var n: nat :| Eval(FixAll(g), Fix(t), s, i, n) == r;
      UnfixMeans(g, t, s, i, n);
    }
  }
}
