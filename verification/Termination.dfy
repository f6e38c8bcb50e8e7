module Termination {
  /**
   Matching an accepted pattern comes to an end on every subject, if no rule reaches itself through a
   call inside a look-behind.
   */

  import opened Peg
  import opened CodeGen
  import opened VerifyGrammar
  import opened LookBehind

  ghost predicate Ends(g: Grammar, t: Tree, s: Subject, i: nat)
    requires i <= |s|
  {
    exists n: nat :: !Eval(g, t, s, i, n).OutOfFuel?
  }

  /** Some fuel with which matching `t` ends, at least `n`. */
  lemma Fuel(g: Grammar, t: Tree, s: Subject, i: nat) returns (n: nat)
    requires i <= |s| && Ends(g, t, s, i)
    ensures forall m: nat {:trigger Eval(g, t, s, i, m)} :: n <= m ==>
              Eval(g, t, s, i, m) == Eval(g, t, s, i, n) && !Eval(g, t, s, i, n).OutOfFuel?
  {
    n :| !Eval(g, t, s, i, n).OutOfFuel?;
    forall m: nat | n <= m ensures Eval(g, t, s, i, m) == Eval(g, t, s, i, n) { FuelIrrelevant(g, t, s, i, n, m); }
  }

  /** A tree whose only part left to run is `p` at `i`, or `p` and then `q` where `p` ends. */
  lemma EndsAfter(g: Grammar, t: Tree, p: Tree, q: Tree, s: Subject, i: nat, at: nat)
    requires i <= |s| && at <= |s| && Ends(g, p, s, at)
    requires match t
             case TSeq(p1, p2) => p1 == p && p2 == q && at == i
             case TRep(p1) => p1 == p && q == t && at == i
             case TChoice(p1, p2) => p1 == p && p2 == q && at == i
             case TNot(p1) => p1 == p && at == i
             case TAnd(p1) => p1 == p && at == i
             case TBehind(m, p1) => p1 == p && at + m == i
             case TCall(k) => k < |g| && g[k] == p && at == i
             case TGrammar => 0 < |g| && g[0] == p && at == i
             case _ => false
    requires forall n: nat :: match Eval(g, p, s, at, n)
                              case Ok(k) => t.TSeq? || t.TRep? ==> Ends(g, q, s, k)
                              case Fail => t.TChoice? ==> Ends(g, q, s, at)
                              case OutOfFuel => true
    ensures Ends(g, t, s, i)
  {
    var n := Fuel(g, p, s, at);
    var r := Eval(g, p, s, at, n);
    if (r.Ok? && (t.TSeq? || t.TRep?)) || (r.Fail? && t.TChoice?) {
      var m := Fuel(g, q, s, if r.Ok? then r.pos else at);
      assert Eval(g, p, s, at, n + m) == r;
      assert !Eval(g, t, s, i, n + m + 1).OutOfFuel?;
    } else {
      assert !Eval(g, t, s, i, n + 1).OutOfFuel?;
    }
  }

  lemma AtomEnds(g: Grammar, t: Tree, s: Subject, i: nat)
    requires i <= |s| && (ToCharset(t).Some? || t.TTrue? || t.TFalse?)
    ensures Ends(g, t, s, i)
  {
    assert !Eval(g, t, s, i, 1).OutOfFuel?;
  }

  ghost predicate NoGrammar(t: Tree) {
    match t
    case TGrammar => false
    case TRep(p) => NoGrammar(p)
    case TNot(p) => NoGrammar(p)
    case TAnd(p) => NoGrammar(p)
    case TBehind(_, p) => NoGrammar(p)
    case TSeq(p1, p2) => NoGrammar(p1) && NoGrammar(p2)
    case TChoice(p1, p2) => NoGrammar(p1) && NoGrammar(p2)
    case _ => true
  }

  /** A successful body of a loop that cannot be empty moves on. */
  lemma BodyMoves(g: Grammar, p: Tree, s: Subject, i: nat, n: nat)
    requires i <= |s| && !CanBeEmpty(g, p) && Eval(g, p, s, i, n).Ok?
    ensures Eval(g, p, s, i, n).pos > i
  {
    if Eval(g, p, s, i, n).pos == i {
      EmptyMatch(g, p, s, i, n);
      CheckedEmpty(g, p, n);
    }
  }

  /** Trees end if the rules that they call, and the grammar that they embed, end everywhere. */
  lemma {:induction false} CalledEnds(g: Grammar, t: Tree, s: Subject, i: nat)
    requires i <= |s| && NoEmptyLoop(g, t)
    requires forall r: nat, j: nat :: HasCall(t, r) && r < |g| && j <= |s| ==> Ends(g, g[r], s, j)
    requires NoGrammar(t) || forall j :: 0 <= j <= |s| ==> Ends(g, TGrammar, s, j)
    ensures Ends(g, t, s, i)
    decreases t, |s| - i
  {
    match t
    case TGrammar =>
    case TCall(k) =>
      if k < |g| {
        assert HasCall(t, k);
        EndsAfter(g, t, g[k], g[k], s, i, i);
      } else {
        assert !Eval(g, t, s, i, 1).OutOfFuel?;
      }
    case TRep(p) =>
      CalledEnds(g, p, s, i);
      forall n: nat | Eval(g, p, s, i, n).Ok? ensures Ends(g, t, s, Eval(g, p, s, i, n).pos) {
        BodyMoves(g, p, s, i, n);
        CalledEnds(g, t, s, Eval(g, p, s, i, n).pos);
      }
      EndsAfter(g, t, p, t, s, i, i);
    case TSeq(p1, p2) =>
      CalledEnds(g, p1, s, i);
      forall n: nat | Eval(g, p1, s, i, n).Ok? ensures Ends(g, p2, s, Eval(g, p1, s, i, n).pos) {
        CalledEnds(g, p2, s, Eval(g, p1, s, i, n).pos);
      }
      EndsAfter(g, t, p1, p2, s, i, i);
    case TChoice(p1, p2) =>
      CalledEnds(g, p1, s, i);
      CalledEnds(g, p2, s, i);
      EndsAfter(g, t, p1, p2, s, i, i);
    case TNot(p) => CalledEnds(g, p, s, i); EndsAfter(g, t, p, p, s, i, i);
    case TAnd(p) => CalledEnds(g, p, s, i); EndsAfter(g, t, p, p, s, i, i);
    case TBehind(m, p) =>
      if m <= i {
        CalledEnds(g, p, s, i - m);
        EndsAfter(g, t, p, p, s, i, i - m);
      } else {
        assert !Eval(g, t, s, i, 1).OutOfFuel?;
      }
    case _ => AtomEnds(g, t, s, i);
  }

  ghost predicate Accepted(g: Grammar) {
    NoLeftRecursion(g) && NoEmptyLoops(g) && WellFormedRules(g)
  }

  lemma EmptyGrammarAccepted()
    ensures Accepted([])
  {
    forall path | Cycle([], path) ensures false {
    }
  }

  /** The calls of `t` are calls of rules in use. */
  ghost predicate CallsUsed(g: Grammar, t: Tree) { forall r: nat :: HasCall(t, r) ==> Used(g, r) }

  lemma RuleCallsUsed(g: Grammar, k: nat)
    requires k < |g|
    ensures CallsUsed(g, g[k])
  {
  }

  lemma {:induction false} RuleTreeHasNoGrammar(g: Grammar, t: Tree)
    requires WellFormed(g, t, false)
    ensures NoGrammar(t)
  {
    match t
    case TRep(p) => RuleTreeHasNoGrammar(g, p);
    case TNot(p) => RuleTreeHasNoGrammar(g, p);
    case TAnd(p) => RuleTreeHasNoGrammar(g, p);
    case TBehind(_, p) => RuleTreeHasNoGrammar(g, p);
    case TSeq(p1, p2) => RuleTreeHasNoGrammar(g, p1); RuleTreeHasNoGrammar(g, p2);
    case TChoice(p1, p2) => RuleTreeHasNoGrammar(g, p1); RuleTreeHasNoGrammar(g, p2);
    case _ =>
  }

  lemma AcceptedParts(g: Grammar)
    requires Accepted(g)
    ensures NoLeftRecursion(g) && WellFormedRules(g)
  {
  }

  /** The rules that `t` calls have at most rank `c`, and those that it calls inside a look-behind have
      less, unless the subject is empty: then every look-behind fails at once. */
  ghost predicate Ranked(g: Grammar, t: Tree, s: Subject, c: nat) {
    && (forall r: nat :: HasCall(t, r) && r < |g| ==> Rank(g, r) <= c)
    && (s != [] ==> forall r: nat :: BehindCall(t, r) && r < |g| ==> Rank(g, r) < c)
  }

  lemma RuleRanked(g: Grammar, k: nat, s: Subject)
    requires k < |g| && (BehindSafe(g) || s == [])
    ensures Ranked(g, g[k], s, Rank(g, k))
  {
    hide Rank, Reaches, BehindSafe;
    forall r: nat | HasCall(g[k], r) && r < |g| ensures Rank(g, r) <= Rank(g, k) { CallsRankNoHigher(g, k, r); }
    if s != [] {
      forall r: nat | BehindCall(g[k], r) && r < |g| ensures Rank(g, r) < Rank(g, k) { BehindCallsRankLower(g, k, r); }
    }
  }

  /** Trees of an accepted grammar end if no rule reaches itself through a call inside a look-behind.
      `path` holds the rules entered since the last character was consumed.  The rank of the rules that
      are called, what remains of the subject, the rules not on the path, and the tree decrease. */
  lemma {:induction false} RuleTreeEnds(g: Grammar, t: Tree, path: seq<nat>, c: nat, s: Subject, i: nat)
    requires BehindSafe(g) || s == []
    requires i <= |s| && Accepted(g) && WellFormed(g, t, false) && NoEmptyLoop(g, t) && CallsUsed(g, t)
    requires Follows(g, path, t) && Ranked(g, t, s, c)
    ensures Ends(g, t, s, i)
    decreases c, |s| - i, |g| - |path|, t
  {
    hide Rank, Reaches, BehindSafe, Accepted;
    AcceptedParts(g);
    ShortPath(g, path);
    match t
    case TRep(p) =>
      Part(g, path, t, p);
      RankedPart(g, t, p, s, c);
      RuleTreeEnds(g, p, path, c, s, i);
      forall n: nat | Eval(g, p, s, i, n).Ok? ensures Ends(g, t, s, Eval(g, p, s, i, n).pos) {
        BodyMoves(g, p, s, i, n);
        RuleTreeEnds(g, t, [], c, s, Eval(g, p, s, i, n).pos);
      }
      EndsAfter(g, t, p, t, s, i, i);
    case TSeq(p1, p2) =>
      Part(g, path, t, p1);
      RankedPart(g, t, p1, s, c);
      RankedPart(g, t, p2, s, c);
      RuleTreeEnds(g, p1, path, c, s, i);
      forall n: nat | Eval(g, p1, s, i, n).Ok? ensures Ends(g, p2, s, Eval(g, p1, s, i, n).pos) {
        var k := Eval(g, p1, s, i, n).pos;
        if k == i {
          EmptyMatch(g, p1, s, i, n);
          CheckedEmpty(g, p1, n);
          Part(g, path, t, p2);
          RuleTreeEnds(g, p2, path, c, s, i);
        } else {
          RuleTreeEnds(g, p2, [], c, s, k);
        }
      }
      EndsAfter(g, t, p1, p2, s, i, i);
    case TChoice(p1, p2) =>
      Part(g, path, t, p1);
      Part(g, path, t, p2);
      RankedPart(g, t, p1, s, c);
      RankedPart(g, t, p2, s, c);
      RuleTreeEnds(g, p1, path, c, s, i);
      RuleTreeEnds(g, p2, path, c, s, i);
      EndsAfter(g, t, p1, p2, s, i, i);
    case TNot(p) =>
      Part(g, path, t, p);
      RankedPart(g, t, p, s, c);
      RuleTreeEnds(g, p, path, c, s, i);
      EndsAfter(g, t, p, p, s, i, i);
    case TAnd(p) =>
      Part(g, path, t, p);
      RankedPart(g, t, p, s, c);
      RuleTreeEnds(g, p, path, c, s, i);
      EndsAfter(g, t, p, p, s, i, i);
    case TBehind(m, p) =>
      if m <= i {
        forall r: nat, j: nat | HasCall(p, r) && r < |g| && j <= |s| ensures Ends(g, g[r], s, j) {
          assert BehindCall(t, r);
          CalledRule(g, t, r, s);
          RuleTreeEnds(g, g[r], [], Rank(g, r), s, j);
        }
        RuleTreeHasNoGrammar(g, p);
        CalledEnds(g, p, s, i - m);
        EndsAfter(g, t, p, p, s, i, i - m);
      } else {
        assert !Eval(g, t, s, i, 1).OutOfFuel?;
      }
    case TCall(k) =>
      ExtendPath(g, path, t, k);
      ShortPath(g, path + [k]);
      assert HasCall(t, k);
      CalledRule(g, t, k, s);
      RuleTreeEnds(g, g[k], path + [k], Rank(g, k), s, i);
      EndsAfter(g, t, g[k], g[k], s, i, i);
    case TGrammar =>
    case _ => AtomEnds(g, t, s, i);
  }

  lemma UsedPart(g: Grammar, t: Tree, p: Tree)
    requires CallsUsed(g, t) && forall r: nat :: HasCall(p, r) ==> HasCall(t, r)
    ensures CallsUsed(g, p)
  {
  }

  lemma RankedPart(g: Grammar, t: Tree, p: Tree, s: Subject, c: nat)
    requires CallsUsed(g, t) && Ranked(g, t, s, c)
    requires forall r: nat :: HasCall(p, r) ==> HasCall(t, r)
    requires forall r: nat :: BehindCall(p, r) ==> BehindCall(t, r)
    ensures CallsUsed(g, p) && Ranked(g, p, s, c)
  {
    hide Rank;
  }

  lemma CalledRule(g: Grammar, t: Tree, r: nat, s: Subject)
    requires Accepted(g) && CallsUsed(g, t) && HasCall(t, r) && r < |g| && (BehindSafe(g) || s == [])
    ensures WellFormed(g, g[r], false) && NoEmptyLoop(g, g[r]) && CallsUsed(g, g[r]) && Ranked(g, g[r], s, Rank(g, r))
  {
    hide Rank, Reaches, BehindSafe;
    RuleCallsUsed(g, r);
    RuleRanked(g, r, s);
  }

  /** A rule in use ends everywhere. */
  lemma RuleEnds(g: Grammar, k: nat, s: Subject, i: nat)
    requires i <= |s| && Accepted(g) && k < |g| && Used(g, k) && (BehindSafe(g) || s == [])
    ensures Ends(g, g[k], s, i)
  {
    hide Rank, Reaches, BehindSafe;
    RuleCallsUsed(g, k);
    RuleRanked(g, k, s);
    assert LeftPath(g, []);
    RuleTreeEnds(g, g[k], [], Rank(g, k), s, i);
  }

  /** What a pattern must satisfy to be compiled: the grammar is accepted, and so were the
      repetitions of the main tree when they were built. */
  ghost predicate AcceptedPattern(g: Grammar, t: Tree) {
    WellFormed(g, t, true) && NoEmptyLoop(g, t) && (g != [] ==> Accepted(g))
  }

  lemma {:induction false} MainHasNoCalls(g: Grammar, t: Tree)
    requires WellFormed(g, t, true)
    ensures (forall r: nat :: !HasCall(t, r)) && (g == [] ==> NoGrammar(t))
  {
    match t
    case TRep(p) => MainHasNoCalls(g, p);
    case TNot(p) => MainHasNoCalls(g, p);
    case TAnd(p) => MainHasNoCalls(g, p);
    case TBehind(_, p) => MainHasNoCalls(g, p);
    case TSeq(p1, p2) => MainHasNoCalls(g, p1); MainHasNoCalls(g, p2);
    case TChoice(p1, p2) => MainHasNoCalls(g, p1); MainHasNoCalls(g, p2);
    case _ =>
  }

  /** Matching an accepted pattern ends, on every subject and from every position, if no rule reaches
      itself through a call inside a look-behind. */
  lemma PatternEnds(g: Grammar, t: Tree, s: Subject, i: nat)
    requires i <= |s| && AcceptedPattern(g, t) && BehindSafe(g)
    ensures Ends(g, t, s, i)
  {
    hide BehindSafe;
    MainHasNoCalls(g, t);
    if g != [] {
      forall j | 0 <= j <= |s| ensures Ends(g, TGrammar, s, j) {
        RuleEnds(g, 0, s, j);
        EndsAfter(g, TGrammar, g[0], g[0], s, j, j);
      }
    }
    CalledEnds(g, t, s, i);
  }
}
