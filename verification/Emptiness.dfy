module Emptiness {
  /**
   What the answers of nullable and nofail are worth on an accepted grammar: with its predicates
   replaced, matching the empty subject ends, and succeeds exactly if the answer is yes.
   */

  import opened Peg
  import opened Analysis
  import opened CodeGen
  import opened VerifyGrammar
  import opened LookBehind
  import opened Termination

  /** The tree with each predicate and look-behind replaced: to be nullable they may succeed, to be nofail
      they may fail, but for the body of an `and`, which then decides. */
  function Stripped(t: Tree, pred: Pred): Tree {
    match t
    case TNot(_) => if pred.PEnullable? then TTrue else TFalse
    case TBehind(_, _) => if pred.PEnullable? then TTrue else TFalse
    case TAnd(p) => if pred.PEnullable? then TTrue else Stripped(p, pred)
    case TRep(p) => TRep(Stripped(p, pred))
    case TSeq(p1, p2) => TSeq(Stripped(p1, pred), Stripped(p2, pred))
    case TChoice(p1, p2) => TChoice(Stripped(p1, pred), Stripped(p2, pred))
    case _ => t
  }

  function StrippedAll(g: Grammar, pred: Pred): Grammar {
    seq(|g|, k requires 0 <= k < |g| => Stripped(g[k], pred))
  }

  lemma StrippedRules(g: Grammar, pred: Pred)
    ensures |StrippedAll(g, pred)| == |g|
    ensures forall k :: 0 <= k < |g| ==> StrippedAll(g, pred)[k] == Stripped(g[k], pred)
  {
  }

  /** What remains is answered alike for both. */
  lemma {:induction false} SameAnswer(g: Grammar, t: Tree, pred: Pred, q: Pred, d: nat, giveUp: bool)
    ensures CheckAux(StrippedAll(g, pred), Stripped(t, pred), q, d, giveUp) == CheckAux(g, t, pred, d, giveUp)
    decreases d, t
  {
    hide StrippedAll;
    StrippedRules(g, pred);
    match t
    case TAnd(p) => if pred.PEnofail? { SameAnswer(g, p, pred, q, d, giveUp); }
    case TSeq(p1, p2) => SameAnswer(g, p1, pred, q, d, giveUp); SameAnswer(g, p2, pred, q, d, giveUp);
    case TChoice(p1, p2) => SameAnswer(g, p1, pred, q, d, giveUp); SameAnswer(g, p2, pred, q, d, giveUp);
    case TCall(k) => if k < |g| && d > 0 { SameAnswer(g, g[k], pred, q, d - 1, giveUp); }
    case TGrammar => if 0 < |g| && d > 0 { SameAnswer(g, g[0], pred, q, d - 1, giveUp); }
    case _ =>
  }

  // ----- the stripped grammar is accepted too

  lemma StillEmpty(g: Grammar, t: Tree, pred: Pred)
    requires CanBeEmpty(StrippedAll(g, pred), Stripped(t, pred))
    ensures CanBeEmpty(g, t)
  {
    hide StrippedAll, Stripped, CheckAux;
    var d: nat :| EmptyAt(StrippedAll(g, pred), Stripped(t, pred), d);
    SameAnswer(g, t, pred, PEnullable, d, false);
    NofailCanBeEmpty(g, t, pred, d);
  }

  lemma {:induction false} FewerLeftCalls(g: Grammar, t: Tree, pred: Pred, r: nat)
    requires LeftCall(StrippedAll(g, pred), Stripped(t, pred), r)
    ensures LeftCall(g, t, r)
  {
    hide StrippedAll, CanBeEmpty;
    match t
    case TAnd(p) => FewerLeftCalls(g, p, pred, r);
    case TRep(p) => FewerLeftCalls(g, p, pred, r);
    case TSeq(p1, p2) =>
      if LeftCall(StrippedAll(g, pred), Stripped(p1, pred), r) {
        FewerLeftCalls(g, p1, pred, r);
      } else {
        FewerLeftCalls(g, p2, pred, r);
        StillEmpty(g, p1, pred);
      }
    case TChoice(p1, p2) =>
      if LeftCall(StrippedAll(g, pred), Stripped(p1, pred), r) {
        FewerLeftCalls(g, p1, pred, r);
      } else {
        FewerLeftCalls(g, p2, pred, r);
      }
    case _ =>
  }

  lemma {:induction false} FewerCalls(t: Tree, pred: Pred, r: nat)
    requires HasCall(Stripped(t, pred), r)
    ensures HasCall(t, r)
  {
    match t
    case TAnd(p) => FewerCalls(p, pred, r);
    case TRep(p) => FewerCalls(p, pred, r);
    case TSeq(p1, p2) =>
      if HasCall(Stripped(p1, pred), r) { FewerCalls(p1, pred, r); } else { FewerCalls(p2, pred, r); }
    case TChoice(p1, p2) =>
      if HasCall(Stripped(p1, pred), r) { FewerCalls(p1, pred, r); } else { FewerCalls(p2, pred, r); }
    case _ =>
  }

  lemma {:induction false} StillLoopFree(g: Grammar, t: Tree, pred: Pred, main: bool)
    requires NoEmptyLoop(g, t) && WellFormed(g, t, main)
    ensures NoEmptyLoop(StrippedAll(g, pred), Stripped(t, pred))
    ensures WellFormed(StrippedAll(g, pred), Stripped(t, pred), main)
  {
    hide StrippedAll, CanBeEmpty, FixedLenX;
    StrippedRules(g, pred);
    match t
    case TAnd(p) => StillLoopFree(g, p, pred, main);
    case TRep(p) =>
      StillLoopFree(g, p, pred, main);
      if CanBeEmpty(StrippedAll(g, pred), Stripped(p, pred)) { StillEmpty(g, p, pred); }
    case TSeq(p1, p2) => StillLoopFree(g, p1, pred, main); StillLoopFree(g, p2, pred, main);
    case TChoice(p1, p2) => StillLoopFree(g, p1, pred, main); StillLoopFree(g, p2, pred, main);
    case _ =>
  }

  lemma {:induction false} StillWellFormed(g: Grammar, t: Tree, pred: Pred, main: bool)
    requires WellFormed(g, t, main)
    ensures WellFormed(StrippedAll(g, pred), Stripped(t, pred), main)
  {
    hide StrippedAll, FixedLenX;
    StrippedRules(g, pred);
    match t
    case TAnd(p) => StillWellFormed(g, p, pred, main);
    case TRep(p) => StillWellFormed(g, p, pred, main);
    case TSeq(p1, p2) => StillWellFormed(g, p1, pred, main); StillWellFormed(g, p2, pred, main);
    case TChoice(p1, p2) => StillWellFormed(g, p1, pred, main); StillWellFormed(g, p2, pred, main);
    case _ =>
  }

  lemma StillUsed(g: Grammar, pred: Pred, r: nat)
    requires Used(StrippedAll(g, pred), r)
    ensures Used(g, r)
  {
    hide StrippedAll;
    StrippedRules(g, pred);
    if r != 0 {
      var k :| 0 <= k < |g| && HasCall(StrippedAll(g, pred)[k], r);
      FewerCalls(g[k], pred, r);
    }
  }

  lemma StillAccepted(g: Grammar, pred: Pred)
    requires Accepted(g)
    ensures Accepted(StrippedAll(g, pred))
  {
    hide StrippedAll, Stripped, Used, LeftCall, NoEmptyLoop, WellFormed;
    StrippedRules(g, pred);
    var h := StrippedAll(g, pred);
    forall path | Cycle(h, path) ensures false {
      forall k | 0 < k < |path| ensures Edge(g, path[k - 1], path[k]) {
        assert Edge(h, path[k - 1], path[k]);
        FewerLeftCalls(g, g[path[k - 1]], pred, path[k]);
      }
      SameCycle(g, h, path);
    }
    forall r | 0 <= r < |h| && Used(h, r) ensures NoEmptyLoop(h, h[r]) {
      StillUsed(g, pred, r);
      StillLoopFree(g, g[r], pred, false);
    }
    forall r | 0 <= r < |h| ensures WellFormed(h, h[r], false) { StillWellFormed(g, g[r], pred, false); }
  }

  lemma SameCycle(g: Grammar, h: Grammar, path: seq<nat>)
    requires |g| == |h| && Cycle(h, path) && forall k :: 0 < k < |path| ==> Edge(g, path[k - 1], path[k])
    ensures Cycle(g, path)
  {
  }

  // ----- what it does on the empty subject

  function FirstRules(n: nat): (r: set<nat>)
    ensures |r| == n && forall k: nat :: k in r <==> k < n
  {
    if n == 0 then {} else FirstRules(n - 1) + {n - 1}
  }

  lemma RankBound(g: Grammar, r: nat)
    ensures Rank(g, r) <= |g|
  {
    hide Reaches;
    SubsetSize(Reach(g, r), FirstRules(|g|));
  }

  /** On the empty subject every tree of an accepted grammar ends. */
  lemma EndsOnNothing(g: Grammar, t: Tree, main: bool)
    requires Accepted(g) && WellFormed(g, t, main) && NoEmptyLoop(g, t) && CallsUsed(g, t)
    ensures Ends(g, t, [], 0)
  {
    hide Accepted, Rank, Reaches;
    if main {
      MainHasNoCalls(g, t);
      if g != [] {
        RuleEnds(g, 0, [], 0);
        EndsAfter(g, TGrammar, g[0], g[0], [], 0, 0);
      }
      CalledEnds(g, t, [], 0);
    } else {
      forall r: nat ensures Rank(g, r) <= |g| { RankBound(g, r); }
      assert LeftPath(g, []);
      RuleTreeEnds(g, t, [], |g|, [], 0);
    }
  }

  /** On an accepted grammar the answer is yes if and only if the stripped tree matches the empty
      subject; and if not, it fails there. */
  lemma AnswerMeans(g: Grammar, t: Tree, main: bool, pred: Pred, giveUp: bool)
    requires Accepted(g) && |g| <= MAXRULES
    requires WellFormed(g, t, main) && NoEmptyLoop(g, t)
    requires CallsUsed(StrippedAll(g, pred), Stripped(t, pred))
    ensures Means(StrippedAll(g, pred), Stripped(t, pred), [], 0,
                  if CheckAux(g, t, pred, DEPTH, giveUp) then Ok(0) else Fail)
  {
    hide StrippedAll, Stripped, CheckAux, Accepted, LeftCall, CanBeEmpty;
    AcceptedParts(g);
    assert LeftPath(g, []);
    DepthEnough(g, t, main, pred, [], DEPTH, DEPTH, giveUp, false);
    DepthEnough(g, t, main, pred, [], DEPTH, DEPTH, true, false);
    var h, u := StrippedAll(g, pred), Stripped(t, pred);
    StrippedRules(g, pred);
    StillAccepted(g, pred);
    StillLoopFree(g, t, pred, main);
    EndsOnNothing(h, u, main);
    var n: nat :| !Eval(h, u, [], 0, n).OutOfFuel?;
    SameAnswer(g, t, pred, PEnofail, DEPTH, false);
    if CheckAux(g, t, pred, DEPTH, false) {
      NofailSound(h, u, [], 0, n, DEPTH);
    } else if Eval(h, u, [], 0, n).Ok? {
      EmptyMatch(h, u, [], 0, n);
      CheckedEmpty(h, u, n);
      AcceptedParts(h);
      NullableExact(h, u, main);
      SameAnswer(g, t, pred, PEnullable, DEPTH, true);
    }
  }

  /** Of a pattern the nullable test is what it claims: it says yes if and only if the pattern, with its
      predicates taken to succeed, matches the empty subject. */
  lemma NullableMeans(g: Grammar, t: Tree)
    requires AcceptedPattern(g, t) && |g| <= MAXRULES
    ensures Nullable(g, t, DEPTH) <==> Means(StrippedAll(g, PEnullable), Stripped(t, PEnullable), [], 0, Ok(0))
  {
    PatternAnswer(g, t, PEnullable, true);
  }

  /** And so is the nofail test, with them taken to fail, but for the body of an `and`. */
  lemma NofailMeans(g: Grammar, t: Tree)
    requires AcceptedPattern(g, t) && |g| <= MAXRULES
    ensures Nofail(g, t, DEPTH) <==> Means(StrippedAll(g, PEnofail), Stripped(t, PEnofail), [], 0, Ok(0))
  {
    PatternAnswer(g, t, PEnofail, false);
  }

  lemma PatternAnswer(g: Grammar, t: Tree, pred: Pred, giveUp: bool)
    requires AcceptedPattern(g, t) && |g| <= MAXRULES
    ensures CheckAux(g, t, pred, DEPTH, giveUp) <==> Means(StrippedAll(g, pred), Stripped(t, pred), [], 0, Ok(0))
  {
    hide StrippedAll, Stripped, CheckAux, NoEmptyLoop, Accepted;
    var h, u := StrippedAll(g, pred), Stripped(t, pred);
    if g == [] { EmptyGrammarAccepted(); }
    StillWellFormed(g, t, pred, true);
    MainHasNoCalls(h, u);
    AnswerMeans(g, t, true, pred, giveUp);
    if !CheckAux(g, t, pred, DEPTH, giveUp) && Means(h, u, [], 0, Ok(0)) {
      MeaningIsUnique(h, u, [], 0, Ok(0), Fail);
    }
  }
}
