module LookBehind {
  /**
   Calls inside look-behind.  The check of a grammar does not look there, as if look-behind could not
   have calls; but the constructor only asks for a fixed length, and what a predicate holds does not
   count for that.  A rule that reaches itself through such a call steps back and starts again.
   */

  import opened Peg
  import opened VerifyGrammar

  /** `t` calls rule `r` inside a look-behind. */
  predicate BehindCall(t: Tree, r: nat) {
    match t
    case TBehind(_, p) => HasCall(p, r)
    case TRep(p) => BehindCall(p, r)
    case TNot(p) => BehindCall(p, r)
    case TAnd(p) => BehindCall(p, r)
    case TSeq(p1, p2) => BehindCall(p1, r) || BehindCall(p2, r)
    case TChoice(p1, p2) => BehindCall(p1, r) || BehindCall(p2, r)
    case _ => false
  }

  predicate Calls(g: Grammar, a: nat, b: nat) { a < |g| && b < |g| && HasCall(g[a], b) }

  ghost predicate CallPath(g: Grammar, path: seq<nat>) {
    && path != []
    && (forall k :: 0 <= k < |path| ==> path[k] < |g|)
    && (forall k :: 0 < k < |path| ==> Calls(g, path[k - 1], path[k]))
  }

  /** Rule `a` is rule `b`, or calls it through any number of calls. */
  ghost predicate Reaches(g: Grammar, a: nat, b: nat) {
    exists path :: CallPath(g, path) && path[0] == a && path[|path| - 1] == b
  }

  /** No rule reaches itself through a call inside a look-behind. */
  ghost predicate BehindSafe(g: Grammar) {
    forall a: nat, b: nat :: a < |g| && b < |g| && BehindCall(g[a], b) ==> !Reaches(g, b, a)
  }

  lemma {:induction false} BehindCallIsCall(t: Tree, r: nat)
    requires BehindCall(t, r)
    ensures HasCall(t, r)
  {
    match t
    case TBehind(_, p) =>
    case TRep(p) => BehindCallIsCall(p, r);
    case TNot(p) => BehindCallIsCall(p, r);
    case TAnd(p) => BehindCallIsCall(p, r);
    case TSeq(p1, p2) => if BehindCall(p1, r) { BehindCallIsCall(p1, r); } else { BehindCallIsCall(p2, r); }
    case TChoice(p1, p2) => if BehindCall(p1, r) { BehindCallIsCall(p1, r); } else { BehindCallIsCall(p2, r); }
  }

  // ----- the rules within reach

  ghost function Reach(g: Grammar, a: nat): set<nat> { set k: nat | k < |g| && Reaches(g, a, k) }

  /** No call leads to a rule of higher rank; in a safe grammar a call inside a look-behind leads lower. */
  ghost function Rank(g: Grammar, a: nat): nat { |Reach(g, a)| }

  lemma ReachesSelf(g: Grammar, a: nat)
    requires a < |g|
    ensures Reaches(g, a, a)
  {
    assert CallPath(g, [a]);
  }

  lemma ReachesFurther(g: Grammar, a: nat, b: nat, c: nat)
    requires Calls(g, a, b) && Reaches(g, b, c)
    ensures Reaches(g, a, c)
  {
    var path :| CallPath(g, path) && path[0] == b && path[|path| - 1] == c;
    var longer := [a] + path;
    forall k | 0 < k < |longer| ensures Calls(g, longer[k - 1], longer[k]) {
      if k > 1 { assert Calls(g, path[k - 2], path[k - 1]); }
    }
    assert CallPath(g, longer);
  }

  lemma CallsRankNoHigher(g: Grammar, a: nat, b: nat)
    requires Calls(g, a, b)
    ensures Rank(g, b) <= Rank(g, a)
  {
    hide Reaches;
    forall c | c in Reach(g, b) ensures c in Reach(g, a) { ReachesFurther(g, a, b, c); }
    SubsetSize(Reach(g, b), Reach(g, a));
  }

  lemma BehindCallsRankLower(g: Grammar, a: nat, b: nat)
    requires BehindSafe(g) && a < |g| && b < |g| && BehindCall(g[a], b)
    ensures Rank(g, b) < Rank(g, a)
  {
    hide Reaches;
    BehindCallIsCall(g[a], b);
    ReachesSelf(g, a);
    forall c | c in Reach(g, b) ensures c in Reach(g, a) { ReachesFurther(g, a, b, c); }
    SubsetSize(Reach(g, b), Reach(g, a) - {a});
  }

  lemma {:induction false} SubsetSize(x: set<nat>, y: set<nat>)
    requires x <= y
    ensures |x| <= |y|
  {
    assert y == x + (y - x);
  }
}
