module Analysis {
  /**
   The static analyses of the compiler, and their soundness against the meaning of patterns.

   The C functions follow a call into the body of its rule without any bound, because they only run
   on grammars already known not to be left recursive.  Here `d` is the number of calls an analysis
   may still follow; when it runs out the answer is the cautious one.  `VerifyGrammar` shows that on
   an accepted grammar `DEPTH` never runs out.
   */

  import opened Peg

  const MAXRULES := 200
  const MAXBEHIND := 255
  const DEPTH := MAXRULES + 1

  datatype Pred = PEnullable | PEnofail

  /** `giveUp` is the answer once `d` calls have been followed. */
  function CheckAux(g: Grammar, t: Tree, pred: Pred, d: nat, giveUp: bool): bool
    decreases d, t
  {
    match t
    case TChar(_) => false
    case TSet(_) => false
    case TAny => false
    case TFalse => false
    case TRep(_) => true
    case TTrue => true
    case TNot(_) => pred.PEnullable?
    case TBehind(_, _) => pred.PEnullable?
    case TAnd(p) => pred.PEnullable? || CheckAux(g, p, pred, d, giveUp)
    case TSeq(p1, p2) => CheckAux(g, p1, pred, d, giveUp) && CheckAux(g, p2, pred, d, giveUp)
    case TChoice(p1, p2) => CheckAux(g, p2, pred, d, giveUp) || CheckAux(g, p1, pred, d, giveUp)
    case TCall(k) => if k < |g| then (if d == 0 then giveUp else CheckAux(g, g[k], pred, d - 1, giveUp)) else false
    case TGrammar => if 0 < |g| then (if d == 0 then giveUp else CheckAux(g, g[0], pred, d - 1, giveUp)) else false
  }

  predicate Nullable(g: Grammar, t: Tree, d: nat) { CheckAux(g, t, PEnullable, d, true) }

  predicate Nofail(g: Grammar, t: Tree, d: nat) { CheckAux(g, t, PEnofail, d, false) }

  /** Length of every match of `t`, added to `len`, or -1 when it may vary. */
  function FixedLenX(g: Grammar, t: Tree, count: nat, len: nat): int
    decreases MAXRULES - count, t
  {
    match t
    case TChar(_) => len + 1
    case TSet(_) => len + 1
    case TAny => len + 1
    case TFalse => len
    case TTrue => len
    case TNot(_) => len
    case TAnd(_) => len
    case TBehind(_, _) => len
    case TRep(_) => -1
    case TCall(k) => if count >= MAXRULES || k >= |g| then -1 else FixedLenX(g, g[k], count + 1, len)
    case TGrammar => if count >= MAXRULES || 0 >= |g| then -1 else FixedLenX(g, g[0], count + 1, len)
    case TSeq(p1, p2) =>
      var l := FixedLenX(g, p1, count, len);
      if l < 0 then -1 else FixedLenX(g, p2, count, l)
    case TChoice(p1, p2) =>
      var n1 := FixedLenX(g, p1, count, len);
      if n1 < 0 then -1
      else if n1 == FixedLenX(g, p2, count, len) then n1 else -1
  }

  function FixedLen(g: Grammar, t: Tree): int { FixedLenX(g, t, 0, 0) }

  /** Read off its parts, `t` has length `n`: one for each character, none for a predicate, the same on
      both sides of a choice, and of a rule that of its tree, through at most `calls` calls in a row; a
      repetition has none. */
  predicate HasLength(g: Grammar, t: Tree, n: nat, calls: nat)
    decreases calls, t
  {
    match t
    case TRep(_) => false
    case TCall(k) => k < |g| && calls > 0 && HasLength(g, g[k], n, calls - 1)
    case TGrammar => 0 < |g| && calls > 0 && HasLength(g, g[0], n, calls - 1)
    case TSeq(p1, p2) => exists m | 0 <= m <= n :: HasLength(g, p1, m, calls) && HasLength(g, p2, n - m, calls)
    case TChoice(p1, p2) => HasLength(g, p1, n, calls) && HasLength(g, p2, n, calls)
    case _ => n == if ToCharset(t).Some? then 1 else 0
  }

  /** The analysis finds the length of exactly the trees that have one. */
  lemma {:induction false} FixedLenXExactly(g: Grammar, t: Tree, count: nat, len: nat)
    requires count <= MAXRULES
    ensures var l, calls := FixedLenX(g, t, count, len), MAXRULES - count;
            && (l >= 0 ==> l >= len && HasLength(g, t, l - len, calls))
            && forall n: nat :: HasLength(g, t, n, calls) ==> l == len + n
    decreases MAXRULES - count, t
  {
    match t
    case TCall(k) => if count < MAXRULES && k < |g| { FixedLenXExactly(g, g[k], count + 1, len); }
    case TGrammar => if count < MAXRULES && 0 < |g| { FixedLenXExactly(g, g[0], count + 1, len); }
    case TSeq(p1, p2) =>
      FixedLenXExactly(g, p1, count, len);
      var l := FixedLenX(g, p1, count, len);
      if l >= 0 { FixedLenXExactly(g, p2, count, l); }
    case TChoice(p1, p2) =>
      FixedLenXExactly(g, p1, count, len);
      FixedLenXExactly(g, p2, count, len);
    case _ =>
  }

  /** A length is found if and only if the tree has one, and then it is that one. */
  lemma FixedLenExactly(g: Grammar, t: Tree)
    ensures forall n: nat :: FixedLen(g, t) == n <==> HasLength(g, t, n, MAXRULES)
    ensures FixedLen(g, t) < 0 ==> FixedLen(g, t) == -1 && forall n: nat :: !HasLength(g, t, n, MAXRULES)
  {
    FixedLenXExactly(g, t, 0, 0);
    NoOtherAnswer(g, t, 0, 0);
  }

  lemma {:induction false} NoOtherAnswer(g: Grammar, t: Tree, count: nat, len: nat)
    ensures FixedLenX(g, t, count, len) >= -1
    decreases MAXRULES - count, t
  {
    match t
    case TCall(k) => if count < MAXRULES && k < |g| { NoOtherAnswer(g, g[k], count + 1, len); }
    case TGrammar => if count < MAXRULES && 0 < |g| { NoOtherAnswer(g, g[0], count + 1, len); }
    case TSeq(p1, p2) =>
      var l := FixedLenX(g, p1, count, len);
      if l >= 0 { NoOtherAnswer(g, p2, count, l); }
    case TChoice(p1, p2) => NoOtherAnswer(g, p1, count, len);
    case _ =>
  }

  /** First set; `e` is set when the pattern may match at the end of the subject. */
  datatype FirstSet = FirstSet(e: bool, cs: Charset)

  function First(g: Grammar, t: Tree, follow: Charset, d: nat): FirstSet
    decreases d, t
  {
    match t
    case TChar(c) => FirstSet(false, {c})
    case TSet(cs) => FirstSet(false, cs)
    case TAny => FirstSet(false, FULLSET)
    case TTrue => FirstSet(true, follow)
    case TFalse => FirstSet(false, {})
    case TChoice(p1, p2) =>
      var f1 := First(g, p1, follow, d);
      var f2 := First(g, p2, follow, d);
      FirstSet(f1.e || f2.e, f1.cs + f2.cs)
    case TSeq(p1, p2) =>
      if !Nullable(g, p1, d) then First(g, p1, FULLSET, d)
      else
        var f2 := First(g, p2, follow, d);
        var f1 := First(g, p1, f2.cs, d);
        FirstSet(f1.e && f2.e, f1.cs)
    case TRep(p) => FirstSet(true, First(g, p, follow, d).cs + follow)
    case TAnd(p) =>
      var f := First(g, p, follow, d);
      FirstSet(f.e, f.cs * follow)
    case TNot(p) =>
      (match ToCharset(p)
       case Some(cs) => FirstSet(true, FULLSET - cs)
       case None => FirstSet(true, follow))
    case TBehind(_, _) => FirstSet(true, follow)
    case TCall(k) =>
      if k >= |g| then FirstSet(false, {})
      else if d == 0 then FirstSet(true, FULLSET)
      else First(g, g[k], follow, d - 1)
    case TGrammar =>
      if 0 >= |g| then FirstSet(false, {})
      else if d == 0 then FirstSet(true, FULLSET)
      else First(g, g[0], follow, d - 1)
  }

  /** Whether `t` can fail only because of the next character. */
  predicate HeadFail(g: Grammar, t: Tree, d: nat)
    decreases d, t
  {
    match t
    case TChar(_) => true
    case TSet(_) => true
    case TAny => true
    case TFalse => true
    case TTrue => false
    case TRep(_) => false
    case TNot(_) => false
    case TBehind(_, _) => false
    case TAnd(p) => HeadFail(g, p, d)
    case TSeq(p1, p2) => Nofail(g, p2, DEPTH) && HeadFail(g, p1, d)
    case TChoice(p1, p2) => HeadFail(g, p1, d) && HeadFail(g, p2, d)
    case TCall(k) => k < |g| && d > 0 && HeadFail(g, g[k], d - 1)
    case TGrammar => 0 < |g| && d > 0 && HeadFail(g, g[0], d - 1)
  }

  /** Whether the code of `t` can profit from a follow set. */
  predicate NeedFollow(t: Tree) {
    match t
    case TChoice(_, _) => true
    case TRep(_) => true
    case TSeq(_, p2) => NeedFollow(p2)
    case _ => false
  }

  // ----- soundness

  /** A pattern that matches without consuming anything is reported nullable. */
  lemma {:induction false} NullableSound(g: Grammar, t: Tree, s: Subject, i: nat, n: nat, d: nat)
    requires i <= |s| && Eval(g, t, s, i, n) == Ok(i)
    ensures Nullable(g, t, d)
    decreases n
  {
    match t
    case TSeq(p1, p2) =>
      NullableSound(g, p1, s, i, n - 1, d);
      NullableSound(g, p2, s, i, n - 1, d);
    case TChoice(p1, p2) =>
      if Eval(g, p1, s, i, n - 1).Fail? {
        NullableSound(g, p2, s, i, n - 1, d);
      } else {
        NullableSound(g, p1, s, i, n - 1, d);
      }
    case TCall(k) => if d > 0 { NullableSound(g, g[k], s, i, n - 1, d - 1); }
    case TGrammar => if d > 0 { NullableSound(g, g[0], s, i, n - 1, d - 1); }
    case _ =>
  }

  /** A pattern reported nofail never fails. */
  lemma {:induction false} NofailSound(g: Grammar, t: Tree, s: Subject, i: nat, n: nat, d: nat)
    requires i <= |s| && Nofail(g, t, d)
    ensures !Eval(g, t, s, i, n).Fail?
    decreases n
  {
    if n > 0 {
      match t
      case TRep(p) =>
        var r := Eval(g, p, s, i, n - 1);
        if r.Ok? { NofailSound(g, t, s, r.pos, n - 1, d); }
      case TAnd(p) => NofailSound(g, p, s, i, n - 1, d);
      case TSeq(p1, p2) =>
        NofailSound(g, p1, s, i, n - 1, d);
        var r := Eval(g, p1, s, i, n - 1);
        if r.Ok? { NofailSound(g, p2, s, r.pos, n - 1, d); }
      case TChoice(p1, p2) =>
        if Nofail(g, p2, d) { NofailSound(g, p2, s, i, n - 1, d); } else { NofailSound(g, p1, s, i, n - 1, d); }
      case TCall(k) => NofailSound(g, g[k], s, i, n - 1, d - 1);
      case TGrammar => NofailSound(g, g[0], s, i, n - 1, d - 1);
      case _ =>
    }
  }

  /** A pattern of fixed length consumes exactly that length whenever it matches. */
  lemma {:induction false} FixedLenXSound(g: Grammar, t: Tree, count: nat, len: nat, s: Subject, i: nat, n: nat)
    requires i <= |s| && Eval(g, t, s, i, n).Ok?
    requires FixedLenX(g, t, count, len) >= 0
    ensures Eval(g, t, s, i, n).pos == i + FixedLenX(g, t, count, len) - len
    decreases n
  {
    match t
    case TSeq(p1, p2) =>
      FixedLenXSound(g, p1, count, len, s, i, n - 1);
      FixedLenXSound(g, p2, count, FixedLenX(g, p1, count, len), s, Eval(g, p1, s, i, n - 1).pos, n - 1);
    case TChoice(p1, p2) =>
      if Eval(g, p1, s, i, n - 1).Fail? {
        FixedLenXSound(g, p2, count, len, s, i, n - 1);
      } else {
        FixedLenXSound(g, p1, count, len, s, i, n - 1);
      }
    case TCall(k) => FixedLenXSound(g, g[k], count + 1, len, s, i, n - 1);
    case TGrammar => FixedLenXSound(g, g[0], count + 1, len, s, i, n - 1);
    case _ =>
  }

  lemma FixedLenSound(g: Grammar, t: Tree, s: Subject, i: nat, n: nat)
    requires i <= |s| && Eval(g, t, s, i, n).Ok? && FixedLen(g, t) >= 0
    ensures Eval(g, t, s, i, n).pos == i + FixedLen(g, t)
  {
    FixedLenXSound(g, t, 0, 0, s, i, n);
  }

  lemma FullHasAll(c: Byte)
    ensures c in FULLSET
  {
  }

  /** The first set is sound: it covers every way to match, up to an empty match before a character
      outside the follow set; without `e` the pattern fails at the end of the subject. */
  lemma {:induction false} FirstSound(g: Grammar, t: Tree, fl: Charset, d: nat, s: Subject, i: nat, n: nat)
    requires i <= |s| && Eval(g, t, s, i, n).Ok?
    ensures i < |s| ==> s[i] in First(g, t, fl, d).cs || (Eval(g, t, s, i, n).pos == i && s[i] !in fl)
    ensures i == |s| ==> First(g, t, fl, d).e
    decreases n
  {
    match t
    case TChar(_) =>
    case TSet(_) =>
    case TAny => FullHasAll(s[i]);
    case TTrue =>
    case TFalse =>
    case TChoice(p1, p2) =>
      if Eval(g, p1, s, i, n - 1).Fail? {
        FirstSound(g, p2, fl, d, s, i, n - 1);
      } else {
        FirstSound(g, p1, fl, d, s, i, n - 1);
      }
    case TSeq(p1, p2) =>
      var k := Eval(g, p1, s, i, n - 1).pos;
      if !Nullable(g, p1, d) {
        if k == i { NullableSound(g, p1, s, i, n - 1, d); }
        FirstSound(g, p1, FULLSET, d, s, i, n - 1);
      } else {
        FirstSound(g, p1, First(g, p2, fl, d).cs, d, s, i, n - 1);
        FirstSound(g, p2, fl, d, s, k, n - 1);
      }
    case TRep(p) =>
      var r := Eval(g, p, s, i, n - 1);
      if r.Ok? {
        FirstSound(g, p, fl, d, s, i, n - 1);
        FirstSound(g, t, fl, d, s, r.pos, n - 1);
      }
    case TAnd(p) => FirstSound(g, p, fl, d, s, i, n - 1);
    case TNot(p) => if ToCharset(p).Some? && i < |s| { NotCharset(g, p, s, i, n - 1); }
    case TBehind(_, _) =>
    case TCall(k) =>
      if d > 0 { FirstSound(g, g[k], fl, d - 1, s, i, n - 1); } else if i < |s| { FullHasAll(s[i]); }
    case TGrammar =>
      if d > 0 { FirstSound(g, g[0], fl, d - 1, s, i, n - 1); } else if i < |s| { FullHasAll(s[i]); }
  }

  lemma NotCharset(g: Grammar, p: Tree, s: Subject, i: nat, n: nat)
    requires ToCharset(p).Some? && i < |s| && Eval(g, p, s, i, n).Fail?
    ensures s[i] in FULLSET - ToCharset(p).value
  {
    FullHasAll(s[i]);
  }

  lemma {:induction false} NofailIsNullable(g: Grammar, t: Tree, d1: nat, d2: nat)
    requires Nofail(g, t, d1)
    ensures Nullable(g, t, d2)
    decreases d1, t
  {
    match t
    case TSeq(p1, p2) => NofailIsNullable(g, p1, d1, d2); NofailIsNullable(g, p2, d1, d2);
    case TChoice(p1, p2) =>
      if Nofail(g, p2, d1) { NofailIsNullable(g, p2, d1, d2); } else { NofailIsNullable(g, p1, d1, d2); }
    case TCall(k) => if d2 > 0 { NofailIsNullable(g, g[k], d1 - 1, d2 - 1); }
    case TGrammar => if d2 > 0 { NofailIsNullable(g, g[0], d1 - 1, d2 - 1); }
    case _ =>
  }

  /** The first set of a nofail pattern followed by anything is full. */
  lemma {:induction false} NofailFirstIsFull(g: Grammar, t: Tree, d1: nat, d2: nat)
    requires Nofail(g, t, d1)
    ensures First(g, t, FULLSET, d2).cs == FULLSET
    decreases d1, t
  {
    match t
    case TAnd(p) => NofailFirstIsFull(g, p, d1, d2);
    case TSeq(p1, p2) =>
      NofailIsNullable(g, p1, d1, d2);
      NofailFirstIsFull(g, p2, d1, d2);
      NofailFirstIsFull(g, p1, d1, d2);
    case TChoice(p1, p2) =>
      if Nofail(g, p2, d1) { NofailFirstIsFull(g, p2, d1, d2); } else { NofailFirstIsFull(g, p1, d1, d2); }
      UnionFull(First(g, p1, FULLSET, d2).cs, First(g, p2, FULLSET, d2).cs);
    case TRep(p) => UnionFull(First(g, p, FULLSET, d2).cs, FULLSET);
    case TCall(k) => if d2 > 0 { NofailFirstIsFull(g, g[k], d1 - 1, d2 - 1); }
    case TGrammar => if d2 > 0 { NofailFirstIsFull(g, g[0], d1 - 1, d2 - 1); }
    case _ =>
  }

  lemma UnionFull(a: Charset, b: Charset)
    requires a == FULLSET || b == FULLSET
    ensures a + b == FULLSET
  {
    forall c: Byte ensures c in FULLSET { FullHasAll(c); }
  }

  /** The test made for a headfail pattern never has to accept the end of the subject. */
  lemma {:induction false} HeadFailNeedsChar(g: Grammar, t: Tree, fl: Charset, d: nat)
    requires HeadFail(g, t, d)
    ensures !First(g, t, fl, d).e
    decreases d, t
  {
    match t
    case TAnd(p) => HeadFailNeedsChar(g, p, fl, d);
    case TSeq(p1, p2) =>
      if Nullable(g, p1, d) {
        HeadFailNeedsChar(g, p1, First(g, p2, fl, d).cs, d);
      } else {
        HeadFailNeedsChar(g, p1, FULLSET, d);
      }
    case TChoice(p1, p2) => HeadFailNeedsChar(g, p1, fl, d); HeadFailNeedsChar(g, p2, fl, d);
    case TCall(k) => HeadFailNeedsChar(g, g[k], fl, d - 1);
    case TGrammar => HeadFailNeedsChar(g, g[0], fl, d - 1);
    case _ =>
  }

  /** For a headfail pattern the first set is exact: the pattern fails if and only if the subject
      ends here or its next character is outside the set. */
  lemma {:induction false} HeadFailExact(g: Grammar, t: Tree, d: nat, s: Subject, i: nat, n: nat)
    requires i <= |s| && HeadFail(g, t, d) && !Eval(g, t, s, i, n).OutOfFuel?
    ensures Eval(g, t, s, i, n).Fail? <==> i == |s| || s[i] !in First(g, t, FULLSET, d).cs
  {
    HeadFailNeedsChar(g, t, FULLSET, d);
    if Eval(g, t, s, i, n).Ok? {
      FirstSound(g, t, FULLSET, d, s, i, n);
      if i < |s| { FullHasAll(s[i]); }
    } else if i < |s| && s[i] in First(g, t, FULLSET, d).cs {
      HeadFailMatches(g, t, d, s, i, n);
    }
  }

  lemma {:induction false} HeadFailMatches(g: Grammar, t: Tree, d: nat, s: Subject, i: nat, n: nat)
    requires i < |s| && HeadFail(g, t, d)
    requires s[i] in First(g, t, FULLSET, d).cs
    ensures !Eval(g, t, s, i, n).Fail?
    decreases n
  {
    if n > 0 {
      match t
      case TAnd(p) => HeadFailMatches(g, p, d, s, i, n - 1);
      case TSeq(p1, p2) =>
        NofailFirstIsFull(g, p2, DEPTH, d);
        HeadFailMatches(g, p1, d, s, i, n - 1);
        var r := Eval(g, p1, s, i, n - 1);
        if r.Ok? { NofailSound(g, p2, s, r.pos, n - 1, DEPTH); }
      case TChoice(p1, p2) =>
        if s[i] in First(g, p1, FULLSET, d).cs {
          HeadFailMatches(g, p1, d, s, i, n - 1);
        } else {
          HeadFailMatches(g, p2, d, s, i, n - 1);
        }
      case TCall(k) => HeadFailMatches(g, g[k], d - 1, s, i, n - 1);
      case TGrammar => HeadFailMatches(g, g[0], d - 1, s, i, n - 1);
      case _ =>
    }
  }
}
