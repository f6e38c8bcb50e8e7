module Heads {
  /**
   What the first set of a pattern is, by meaning: the characters that its head lets pass.  The head
   is what the pattern asks of the next character, the rest of the pattern left out and what follows
   it put in; predicates that ask for more than one class of characters let every one pass.
   */

  import opened Peg
  import opened Analysis

  /** Any character, or else `k`. */
  function AnyOr(k: Tree): Tree { TChoice(TAny, k) }

  /** The head of `t` with `k` to follow it, `d` calls in a row unfolded. */
  function Head(g: Grammar, t: Tree, k: Tree, d: nat): Tree
    decreases d, t
  {
    match t
    case TTrue => k
    case TBehind(_, _) => k
    case TNot(p) => if ToCharset(p).Some? then TSeq(t, AnyOr(k)) else k
    case TAnd(p) => TSeq(TAnd(Head(g, p, k, d)), k)
    case TRep(p) => TChoice(Head(g, p, k, d), k)
    case TChoice(p1, p2) => TChoice(Head(g, p1, k, d), Head(g, p2, k, d))
    case TSeq(p1, p2) => Head(g, p1, if Nullable(g, p1, d) then Head(g, p2, k, d) else AnyOr(k), d)
    case TCall(r) => if r >= |g| then TFalse else if d == 0 then AnyOr(k) else Head(g, g[r], k, d - 1)
    case TGrammar => if 0 >= |g| then TFalse else if d == 0 then AnyOr(k) else Head(g, g[0], k, d - 1)
    case _ => t
  }

  /** A character of `fl`, or the end of the subject. */
  function Follow(fl: Charset): Tree { TChoice(TSet(fl), TNot(TAny)) }

  /** `f` has the next character of `x`, or `e` is set and `x` is empty. */
  predicate Has(f: FirstSet, x: Subject)
    requires |x| <= 1
  {
    if x == [] then f.e else x[0] in f.cs
  }

  /** From depth `n` on, `t` matches all of `x` if `yes`, and else fails. */
  ghost predicate Decides(t: Tree, x: Subject, yes: bool, n: nat) {
    forall m | n <= m :: Eval([], t, x, 0, m) == if yes then Ok(|x|) else Fail
  }

  /** The head of `t` matches a character, or the end, exactly if the first set has it; the end only if
      what follows matches it too. */
  lemma {:induction false} HeadDecides(g: Grammar, t: Tree, k: Tree, fl: FirstSet, d: nat, x: Subject, nk: nat)
    returns (n: nat)
    requires |x| <= 1 && Decides(k, x, Has(fl, x), nk)
    ensures Decides(Head(g, t, k, d), x, Has(First(g, t, fl.cs, d), x) && (x == [] ==> fl.e), n)
    decreases d, t
  {
    hide Decides;
    match t
    case TTrue => n := nk;
    case TBehind(_, _) => n := nk;
    case TNot(p) =>
      if ToCharset(p).Some? {
        n := nk + 3;
        NotDecides(p, k, x, Has(fl, x), nk);
      } else {
        n := nk;
      }
    case TAnd(p) =>
      n := HeadDecides(g, p, k, fl, d, x, nk);
      AndDecides(Head(g, p, k, d), k, x, Has(First(g, p, fl.cs, d), x) && (x == [] ==> fl.e), Has(fl, x), n, nk);
      n := n + nk + 2;
    case TRep(p) =>
      n := HeadDecides(g, p, k, fl, d, x, nk);
      OrDecides(Head(g, p, k, d), k, x, Has(First(g, p, fl.cs, d), x) && (x == [] ==> fl.e), Has(fl, x), n, nk);
      n := n + nk + 1;
    case TChoice(p1, p2) =>
      var n1 := HeadDecides(g, p1, k, fl, d, x, nk);
      n := HeadDecides(g, p2, k, fl, d, x, nk);
      OrDecides(Head(g, p1, k, d), Head(g, p2, k, d), x, Has(First(g, p1, fl.cs, d), x) && (x == [] ==> fl.e),
        Has(First(g, p2, fl.cs, d), x) && (x == [] ==> fl.e), n1, n);
      n := n1 + n + 1;
    case TSeq(p1, p2) =>
      if Nullable(g, p1, d) {
        var n2 := HeadDecides(g, p2, k, fl, d, x, nk);
        var f2 := First(g, p2, fl.cs, d);
        n := HeadDecides(g, p1, Head(g, p2, k, d), FirstSet(f2.e && fl.e, f2.cs), d, x, n2);
      } else {
        AnyDecides(k, x, Has(fl, x), nk);
        n := HeadDecides(g, p1, AnyOr(k), FirstSet(fl.e, FULLSET), d, x, nk + 2);
      }
    case TCall(r) =>
      if r < |g| && d > 0 {
        n := HeadDecides(g, g[r], k, fl, d - 1, x, nk);
      } else {
        n := nk + 2;
        AnyDecides(k, x, Has(fl, x), nk);
        LeafDecides(TFalse, x, nk + 2);
      }
    case TGrammar =>
      if 0 < |g| && d > 0 {
        n := HeadDecides(g, g[0], k, fl, d - 1, x, nk);
      } else {
        n := nk + 2;
        AnyDecides(k, x, Has(fl, x), nk);
        LeafDecides(TFalse, x, nk + 2);
      }
    case _ => n := 1; LeafDecides(t, x, 1);
  }

  lemma LeafDecides(t: Tree, x: Subject, n: nat)
    requires |x| <= 1 && n > 0 && (ToCharset(t).Some? || t.TFalse?)
    ensures Decides(t, x, ToCharset(t).Some? && x != [] && x[0] in ToCharset(t).value, n)
  {
    if x != [] { FullHasAll(x[0]); }
  }

  lemma AnyDecides(k: Tree, x: Subject, yes: bool, nk: nat)
    requires |x| <= 1 && Decides(k, x, yes, nk)
    ensures Decides(AnyOr(k), x, x != [] || yes, nk + 2)
    ensures x != [] ==> x[0] in FULLSET
  {
    if x != [] { FullHasAll(x[0]); }
  }

  lemma NotDecides(p: Tree, k: Tree, x: Subject, yes: bool, nk: nat)
    requires |x| <= 1 && Decides(k, x, yes, nk) && ToCharset(p).Some?
    ensures Decides(TSeq(TNot(p), AnyOr(k)), x, if x == [] then yes else x[0] in FULLSET - ToCharset(p).value, nk + 3)
  {
    AnyDecides(k, x, yes, nk);
    if x != [] { FullHasAll(x[0]); }
    var pass := x == [] || x[0] !in ToCharset(p).value;
    forall m | nk + 3 <= m
      ensures Eval([], TSeq(TNot(p), AnyOr(k)), x, 0, m) == if pass && (x != [] || yes) then Ok(|x|) else Fail
    {
      assert Eval([], p, x, 0, m - 2) == if pass then Fail else Ok(1);
      assert Eval([], TNot(p), x, 0, m - 1) == if pass then Ok(0) else Fail;
    }
  }

  lemma AndDecides(h: Tree, k: Tree, x: Subject, first: bool, yes: bool, nh: nat, nk: nat)
    requires Decides(h, x, first, nh) && Decides(k, x, yes, nk)
    ensures Decides(TSeq(TAnd(h), k), x, first && yes, nh + nk + 2)
  {
    forall m | nh + nk + 2 <= m
      ensures Eval([], TSeq(TAnd(h), k), x, 0, m) == if first && yes then Ok(|x|) else Fail
    {
      assert Eval([], h, x, 0, m - 2) == if first then Ok(|x|) else Fail;
      assert Eval([], TAnd(h), x, 0, m - 1) == if first then Ok(0) else Fail;
    }
  }

  lemma OrDecides(a: Tree, b: Tree, x: Subject, ya: bool, yb: bool, na: nat, nb: nat)
    requires Decides(a, x, ya, na) && Decides(b, x, yb, nb)
    ensures Decides(TChoice(a, b), x, ya || yb, na + nb + 1)
  {
  }

  /** The first set is exactly what the head lets pass. */
  lemma FirstMeans(g: Grammar, t: Tree, fl: Charset, d: nat, c: Byte)
    ensures c in First(g, t, fl, d).cs <==> Means([], Head(g, t, Follow(fl), d), [c], 0, Ok(1))
    ensures First(g, t, fl, d).e <==> Means([], Head(g, t, Follow(fl), d), [], 0, Ok(0))
  {
    HeadMatches(g, t, fl, d, [c]);
    HeadMatches(g, t, fl, d, []);
  }

  lemma HeadMatches(g: Grammar, t: Tree, fl: Charset, d: nat, x: Subject)
    requires |x| <= 1
    ensures Has(First(g, t, fl, d), x) <==> Means([], Head(g, t, Follow(fl), d), x, 0, Ok(|x|))
  {
    var f := FirstSet(true, fl);
    OrDecides(TSet(fl), TNot(TAny), x, x != [] && x[0] in fl, x == [], 1, 2);
    var n := HeadDecides(g, t, Follow(fl), f, d, x, 4);
    var r := Eval([], Head(g, t, Follow(fl), d), x, 0, n);
    if Means([], Head(g, t, Follow(fl), d), x, 0, Ok(|x|)) {
      MeaningIsUnique([], Head(g, t, Follow(fl), d), x, 0, Ok(|x|), r);
    }
  }
}
