module VerifyGrammar {
  /**
   The check made on a grammar before it is compiled, and what acceptance is worth: it is exactly the
   absence of left recursion and of empty loops.
   */

  import opened Peg
  import opened Analysis
  import opened CodeGen

  // ----- what the check is about

  /** What is left of `t` to match the empty subject, with `d` calls in a row unfolded and any further
      one failing: a repetition matches at once.  Predicates and look-behind may go either way: they
      succeed to be nullable, and fail to be nofail, but for the body of an `and`, which then decides. */
  function Unfolded(g: Grammar, t: Tree, pred: Pred, d: nat): Tree
    decreases d, t
  {
    match t
    case TRep(_) => TTrue
    case TNot(_) => if pred.PEnullable? then TTrue else TFalse
    case TBehind(_, _) => if pred.PEnullable? then TTrue else TFalse
    case TAnd(p) => if pred.PEnullable? then TTrue else Unfolded(g, p, pred, d)
    case TSeq(p1, p2) => TSeq(Unfolded(g, p1, pred, d), Unfolded(g, p2, pred, d))
    case TChoice(p1, p2) => TChoice(Unfolded(g, p1, pred, d), Unfolded(g, p2, pred, d))
    case TCall(k) => if k < |g| && d > 0 then Unfolded(g, g[k], pred, d - 1) else TFalse
    case TGrammar => if 0 < |g| && d > 0 then Unfolded(g, g[0], pred, d - 1) else TFalse
    case _ => t
  }

  /** The analysis answers what the unfolded tree does on the empty subject. */
  lemma {:induction false} UnfoldedMeans(g: Grammar, t: Tree, pred: Pred, d: nat) returns (n: nat)
    ensures forall m | n <= m :: Eval([], Unfolded(g, t, pred, d), [], 0, m)
                              == if CheckAux(g, t, pred, d, false) then Ok(0) else Fail
    decreases d, t
  {
    match t
    case TAnd(p) => if pred.PEnullable? { n := 1; } else { n := UnfoldedMeans(g, p, pred, d); }
    case TSeq(p1, p2) =>
      var n1 := UnfoldedMeans(g, p1, pred, d);
      var n2 := UnfoldedMeans(g, p2, pred, d);
      n := n1 + n2 + 1;
    case TChoice(p1, p2) =>
      var n1 := UnfoldedMeans(g, p1, pred, d);
      var n2 := UnfoldedMeans(g, p2, pred, d);
      n := n1 + n2 + 1;
    case TCall(k) => if k < |g| && d > 0 { n := UnfoldedMeans(g, g[k], pred, d - 1); } else { n := 1; }
    case TGrammar => if 0 < |g| && d > 0 { n := UnfoldedMeans(g, g[0], pred, d - 1); } else { n := 1; }
    case _ => n := 1;
  }

  /** With `d` calls in a row unfolded, `t` matches the empty subject. */
  ghost predicate EmptyAt(g: Grammar, t: Tree, d: nat): (b: bool)
    ensures b == CheckAux(g, t, PEnullable, d, false)
  {
    UnfoldedIs(g, t, PEnullable, d);
    Means([], Unfolded(g, t, PEnullable, d), [], 0, Ok(0))
  }

  lemma UnfoldedIs(g: Grammar, t: Tree, pred: Pred, d: nat)
    ensures Means([], Unfolded(g, t, pred, d), [], 0, Ok(0)) <==> CheckAux(g, t, pred, d, false)
  {
    var n := UnfoldedMeans(g, t, pred, d);
    var r := Eval([], Unfolded(g, t, pred, d), [], 0, n);
    if Means([], Unfolded(g, t, pred, d), [], 0, Ok(0)) {
      MeaningIsUnique([], Unfolded(g, t, pred, d), [], 0, Ok(0), r);
    }
  }

  /** `t` can match the empty string: least reading, through any number of calls. */
  ghost predicate CanBeEmpty(g: Grammar, t: Tree) {
    exists d: nat :: EmptyAt(g, t, d)
  }

  lemma CheckedEmpty(g: Grammar, t: Tree, d: nat)
    requires CheckAux(g, t, PEnullable, d, false)
    ensures CanBeEmpty(g, t)
  {
    assert EmptyAt(g, t, d);
  }

  /** `t` may call rule `r` before it consumes anything. */
  ghost predicate LeftCall(g: Grammar, t: Tree, r: nat) {
    match t
    case TCall(k) => r == k
    case TGrammar => r == 0
    case TNot(p) => LeftCall(g, p, r)
    case TAnd(p) => LeftCall(g, p, r)
    case TRep(p) => LeftCall(g, p, r)
    case TSeq(p1, p2) => LeftCall(g, p1, r) || (CanBeEmpty(g, p1) && LeftCall(g, p2, r))
    case TChoice(p1, p2) => LeftCall(g, p1, r) || LeftCall(g, p2, r)
    case _ => false
  }

  ghost predicate Edge(g: Grammar, a: nat, b: nat) { a < |g| && b < |g| && LeftCall(g, g[a], b) }

  ghost predicate LeftPath(g: Grammar, path: seq<nat>) {
    && (forall k :: 0 <= k < |path| ==> path[k] < |g|)
    && (forall k :: 0 < k < |path| ==> Edge(g, path[k - 1], path[k]))
  }

  /** `path` leads from a rule back to itself. */
  ghost predicate Cycle(g: Grammar, path: seq<nat>) {
    LeftPath(g, path) && |path| >= 2 && path[0] == path[|path| - 1]
  }

  predicate HasCall(t: Tree, r: nat) {
    match t
    case TCall(k) => k == r
    case TRep(p) => HasCall(p, r)
    case TNot(p) => HasCall(p, r)
    case TAnd(p) => HasCall(p, r)
    case TBehind(_, p) => HasCall(p, r)
    case TSeq(p1, p2) => HasCall(p1, r) || HasCall(p2, r)
    case TChoice(p1, p2) => HasCall(p1, r) || HasCall(p2, r)
    case _ => false
  }

  /** A rule has a key when it is called somewhere, or is the initial one. */
  predicate Used(g: Grammar, r: nat) { r == 0 || exists k :: 0 <= k < |g| && HasCall(g[k], r) }

  ghost predicate NoLeftRecursion(g: Grammar) {
    forall path :: !Cycle(g, path)
  }

  ghost predicate NoEmptyLoop(g: Grammar, t: Tree) {
    match t
    case TRep(p) => !CanBeEmpty(g, p) && NoEmptyLoop(g, p)
    case TNot(p) => NoEmptyLoop(g, p)
    case TAnd(p) => NoEmptyLoop(g, p)
    case TBehind(_, p) => NoEmptyLoop(g, p)
    case TSeq(p1, p2) => NoEmptyLoop(g, p1) && NoEmptyLoop(g, p2)
    case TChoice(p1, p2) => NoEmptyLoop(g, p1) && NoEmptyLoop(g, p2)
    case _ => true
  }

  ghost predicate NoEmptyLoops(g: Grammar) {
    forall r :: 0 <= r < |g| && Used(g, r) ==> NoEmptyLoop(g, g[r])
  }

  // ----- the check

  datatype Verdict = TooManyLeftCalls(passed: seq<nat>) | Verified(nullable: bool)

  /** `passed`: the rules entered by left calls so far.  Otherwise answers whether `t`, or what was
      already found (`nullable`), can match the empty string. */
  function VerifyRule(g: Grammar, t: Tree, passed: seq<nat>, nullable: bool): Verdict
    requires |passed| <= MAXRULES
    decreases MAXRULES - |passed|, t
  {
    match t
    case TChar(_) => Verified(nullable)
    case TSet(_) => Verified(nullable)
    case TAny => Verified(nullable)
    case TFalse => Verified(nullable)
    case TTrue => Verified(true)
    case TBehind(_, _) => Verified(true)
    case TNot(p) => VerifyRule(g, p, passed, true)
    case TAnd(p) => VerifyRule(g, p, passed, true)
    case TRep(p) => VerifyRule(g, p, passed, true)
    case TCall(k) =>
      if k >= |g| then Verified(nullable)
      else if |passed| >= MAXRULES then TooManyLeftCalls(passed + [k])
      else VerifyRule(g, g[k], passed + [k], nullable)
    case TSeq(p1, p2) =>
      var v := VerifyRule(g, p1, passed, false);
      if v.TooManyLeftCalls? then v
      else if !v.nullable then Verified(nullable)
      else VerifyRule(g, p2, passed, nullable)
    case TChoice(p1, p2) =>
      var v := VerifyRule(g, p1, passed, nullable);
      if v.TooManyLeftCalls? then v else VerifyRule(g, p2, passed, v.nullable)
    case TGrammar => Verified(nullable)
  }

  predicate CheckLoops(g: Grammar, t: Tree) {
    match t
    case TRep(p) => Nullable(g, p, DEPTH) || CheckLoops(g, p)
    case TNot(p) => CheckLoops(g, p)
    case TAnd(p) => CheckLoops(g, p)
    case TBehind(_, p) => CheckLoops(g, p)
    case TSeq(p1, p2) => CheckLoops(g, p1) || CheckLoops(g, p2)
    case TChoice(p1, p2) => CheckLoops(g, p1) || CheckLoops(g, p2)
    case _ => false
  }

  datatype GrammarError = LeftRecursive(rule: nat) | EmptyLoop(rule: nat)

  /** The whole check accepts a grammar exactly when no rule in use reaches itself through left
      calls and no repetition in use has a body that can match the empty string. */
  method Verify(g: Grammar) returns (err: Option<GrammarError>)
    requires 0 < |g| <= MAXRULES && WellFormedRules(g)
    ensures err.None? <==> NoLeftRecursion(g) && NoEmptyLoops(g)
    ensures err.Some? && err.value.LeftRecursive? ==> !NoLeftRecursion(g)
    ensures err.Some? && err.value.EmptyLoop? ==> NoLeftRecursion(g) && !NoEmptyLoops(g)
  {
    for k := 0 to |g|
      invariant forall r :: 0 <= r < k && Used(g, r) ==> VerifyRule(g, g[r], [], false).Verified?
    {
      if Used(g, k) && VerifyRule(g, g[k], [], false).TooManyLeftCalls? {
        RejectedHasCycle(g, k);
        return Some(LeftRecursive(k));
      }
    }
    AcceptedHasNoCycle(g);
    for k := 0 to |g|
      invariant forall r :: 0 <= r < k && Used(g, r) ==> NoEmptyLoop(g, g[r])
    {
      if Used(g, k) {
        LoopsExact(g, g[k]);
        if CheckLoops(g, g[k]) { return Some(EmptyLoop(k)); }
      }
    }
    return None;
  }

  // ----- the least reading of nullable

  lemma {:induction false} MoreDepth(g: Grammar, t: Tree, d1: nat, d2: nat)
    requires d1 <= d2 && CheckAux(g, t, PEnullable, d1, false)
    ensures CheckAux(g, t, PEnullable, d2, false)
    decreases d1, t
  {
    match t
    case TSeq(p1, p2) => MoreDepth(g, p1, d1, d2); MoreDepth(g, p2, d1, d2);
    case TChoice(p1, p2) =>
      if CheckAux(g, p2, PEnullable, d1, false) { MoreDepth(g, p2, d1, d2); } else { MoreDepth(g, p1, d1, d2); }
    case TCall(k) => MoreDepth(g, g[k], d1 - 1, d2 - 1);
    case TGrammar => MoreDepth(g, g[0], d1 - 1, d2 - 1);
    case _ =>
  }

  /** Only what can be empty matches without consuming. */
  lemma {:induction false} EmptyMatch(g: Grammar, t: Tree, s: Subject, i: nat, n: nat)
    requires i <= |s| && Eval(g, t, s, i, n) == Ok(i)
    ensures CheckAux(g, t, PEnullable, n, false)
    decreases n
  {
    match t
    case TSeq(p1, p2) =>
      EmptyMatch(g, p1, s, i, n - 1);
      EmptyMatch(g, p2, s, i, n - 1);
      MoreDepth(g, p1, n - 1, n);
      MoreDepth(g, p2, n - 1, n);
    case TChoice(p1, p2) =>
      if Eval(g, p1, s, i, n - 1).Fail? {
        EmptyMatch(g, p2, s, i, n - 1);
        MoreDepth(g, p2, n - 1, n);
      } else {
        EmptyMatch(g, p1, s, i, n - 1);
        MoreDepth(g, p1, n - 1, n);
      }
    case TCall(k) => EmptyMatch(g, g[k], s, i, n - 1);
    case TGrammar => EmptyMatch(g, g[0], s, i, n - 1);
    case _ =>
  }

  /** What `VerifyRule` was told to be nullable it reports nullable. */
  lemma {:induction false} StaysNullable(g: Grammar, t: Tree, passed: seq<nat>)
    requires |passed| <= MAXRULES && VerifyRule(g, t, passed, true).Verified?
    ensures VerifyRule(g, t, passed, true).nullable
    decreases MAXRULES - |passed|, t
  {
    match t
    case TNot(p) => StaysNullable(g, p, passed);
    case TAnd(p) => StaysNullable(g, p, passed);
    case TRep(p) => StaysNullable(g, p, passed);
    case TCall(k) => if k < |g| { StaysNullable(g, g[k], passed + [k]); }
    case TSeq(p1, p2) => if VerifyRule(g, p1, passed, false).nullable { StaysNullable(g, p2, passed); }
    case TChoice(p1, p2) => StaysNullable(g, p1, passed); StaysNullable(g, p2, passed);
    case _ =>
  }

  lemma {:induction false} ReportsNullable(g: Grammar, t: Tree, passed: seq<nat>, nb: bool, d: nat)
    requires |passed| <= MAXRULES && VerifyRule(g, t, passed, nb).Verified?
    requires WellFormed(g, t, false) && WellFormedRules(g)
    requires CheckAux(g, t, PEnullable, d, false)
    ensures VerifyRule(g, t, passed, nb).nullable
    decreases MAXRULES - |passed|, t
  {
    match t
    case TNot(p) => StaysNullable(g, p, passed);
    case TAnd(p) => StaysNullable(g, p, passed);
    case TRep(p) => StaysNullable(g, p, passed);
    case TCall(k) => ReportsNullable(g, g[k], passed + [k], nb, d - 1);
    case TSeq(p1, p2) =>
      ReportsNullable(g, p1, passed, false, d);
      ReportsNullable(g, p2, passed, nb, d);
    case TChoice(p1, p2) =>
      var nb1 := VerifyRule(g, p1, passed, nb).nullable;
      if CheckAux(g, p2, PEnullable, d, false) {
        ReportsNullable(g, p2, passed, nb1, d);
      } else {
        ReportsNullable(g, p1, passed, nb, d);
        StaysNullable(g, p2, passed);
      }
    case _ =>
  }

  lemma {:induction false} ReportedCanBeEmpty(g: Grammar, t: Tree, passed: seq<nat>)
    requires |passed| <= MAXRULES && VerifyRule(g, t, passed, false) == Verified(true)
    ensures CanBeEmpty(g, t)
    decreases MAXRULES - |passed|, t
  {
    match t
    case TCall(k) =>
      ReportedCanBeEmpty(g, g[k], passed + [k]);
      var d: nat :| CheckAux(g, g[k], PEnullable, d, false);
      CheckedEmpty(g, t, d + 1);
    case TSeq(p1, p2) =>
      ReportedCanBeEmpty(g, p1, passed);
      ReportedCanBeEmpty(g, p2, passed);
      var d1: nat :| CheckAux(g, p1, PEnullable, d1, false);
      var d2: nat :| CheckAux(g, p2, PEnullable, d2, false);
      MoreDepth(g, p1, d1, d1 + d2);
      MoreDepth(g, p2, d2, d1 + d2);
      CheckedEmpty(g, t, d1 + d2);
    case TChoice(p1, p2) =>
      if VerifyRule(g, p1, passed, false).nullable {
        ReportedCanBeEmpty(g, p1, passed);
        var d: nat :| CheckAux(g, p1, PEnullable, d, false);
        CheckedEmpty(g, t, d);
      } else {
        ReportedCanBeEmpty(g, p2, passed);
        var d: nat :| CheckAux(g, p2, PEnullable, d, false);
        CheckedEmpty(g, t, d);
      }
    case TTrue => CheckedEmpty(g, t, 0);
    case TBehind(_, _) => CheckedEmpty(g, t, 0);
    case TNot(_) => CheckedEmpty(g, t, 0);
    case TAnd(_) => CheckedEmpty(g, t, 0);
    case TRep(_) => CheckedEmpty(g, t, 0);
    case _ =>
  }

  // ----- acceptance excludes cycles

  lemma {:induction false} AcceptedCall(g: Grammar, t: Tree, passed: seq<nat>, nb: bool, r: nat)
    requires |passed| <= MAXRULES && VerifyRule(g, t, passed, nb).Verified?
    requires WellFormed(g, t, false) && WellFormedRules(g) && LeftCall(g, t, r)
    ensures r < |g| && |passed| < MAXRULES
    ensures exists nb' :: VerifyRule(g, g[r], passed + [r], nb').Verified?
    decreases t
  {
    match t
    case TCall(k) => assert VerifyRule(g, g[r], passed + [r], nb).Verified?;
    case TNot(p) => AcceptedCall(g, p, passed, true, r);
    case TAnd(p) => AcceptedCall(g, p, passed, true, r);
    case TRep(p) => AcceptedCall(g, p, passed, true, r);
    case TSeq(p1, p2) =>
      if LeftCall(g, p1, r) {
        AcceptedCall(g, p1, passed, false, r);
      } else {
        var d: nat :| CheckAux(g, p1, PEnullable, d, false);
        ReportsNullable(g, p1, passed, false, d);
        AcceptedCall(g, p2, passed, nb, r);
      }
    case TChoice(p1, p2) =>
      if LeftCall(g, p1, r) {
        AcceptedCall(g, p1, passed, nb, r);
      } else {
        AcceptedCall(g, p2, passed, VerifyRule(g, p1, passed, nb).nullable, r);
      }
  }

  /** Going round a cycle exhausts the bound on left calls. */
  lemma RoundTheCycle(g: Grammar, path: seq<nat>, k: nat, passed: seq<nat>, nb: bool)
    requires WellFormedRules(g) && Cycle(g, path) && k < |path| - 1
    requires |passed| <= MAXRULES
    ensures VerifyRule(g, g[path[k]], passed, nb).TooManyLeftCalls?
    decreases MAXRULES - |passed|
  {
    if VerifyRule(g, g[path[k]], passed, nb).Verified? {
      var r := path[k + 1];
      assert Edge(g, path[k + 1 - 1], path[k + 1]);
      AcceptedCall(g, g[path[k]], passed, nb, r);
      var nb' :| VerifyRule(g, g[r], passed + [r], nb').Verified?;
      RoundTheCycle(g, path, if k + 1 == |path| - 1 then 0 else k + 1, passed + [r], nb');
    }
  }

  lemma AcceptedHasNoCycle(g: Grammar)
    requires WellFormedRules(g)
    requires forall r :: 0 <= r < |g| && Used(g, r) ==> VerifyRule(g, g[r], [], false).Verified?
    ensures NoLeftRecursion(g)
  {
    forall path | Cycle(g, path) ensures false {
      var last := |path| - 1;
      assert Edge(g, path[last - 1], path[last]);
      LeftCallIsCall(g, g[path[last - 1]], path[0]);
      RoundTheCycle(g, path, 0, [], false);
    }
  }

  // ----- rejection exhibits a cycle

  ghost predicate CallsFrom(g: Grammar, t: Tree, calls: seq<nat>) {
    LeftPath(g, calls) && |calls| > 0 && LeftCall(g, t, calls[0])
  }

  lemma {:induction false} RejectedPath(g: Grammar, t: Tree, passed: seq<nat>, nb: bool) returns (calls: seq<nat>)
    requires |passed| <= MAXRULES && VerifyRule(g, t, passed, nb).TooManyLeftCalls?
    ensures CallsFrom(g, t, calls) && |passed| + |calls| == MAXRULES + 1
    decreases MAXRULES - |passed|, t
  {
    match t
    case TCall(k) =>
      if |passed| >= MAXRULES {
        calls := [k];
      } else {
        var rest := RejectedPath(g, g[k], passed + [k], nb);
        calls := [k] + rest;
        forall j | 0 < j < |calls| ensures Edge(g, calls[j - 1], calls[j]) {
          if j > 1 { assert Edge(g, rest[j - 1 - 1], rest[j - 1]); }
        }
      }
    case TNot(p) => calls := RejectedPath(g, p, passed, true);
    case TAnd(p) => calls := RejectedPath(g, p, passed, true);
    case TRep(p) => calls := RejectedPath(g, p, passed, true);
    case TSeq(p1, p2) =>
      if VerifyRule(g, p1, passed, false).TooManyLeftCalls? {
        calls := RejectedPath(g, p1, passed, false);
      } else {
        ReportedCanBeEmpty(g, p1, passed);
        calls := RejectedPath(g, p2, passed, nb);
      }
    case TChoice(p1, p2) =>
      if VerifyRule(g, p1, passed, nb).TooManyLeftCalls? {
        calls := RejectedPath(g, p1, passed, nb);
      } else {
        calls := RejectedPath(g, p2, passed, VerifyRule(g, p1, passed, nb).nullable);
      }
  }

  ghost predicate Distinct(xs: seq<nat>) { forall i, j :: 0 <= i < j < |xs| ==> xs[i] != xs[j] }

  lemma {:induction false} Pigeonhole(xs: seq<nat>, n: nat)
    requires forall k :: 0 <= k < |xs| ==> xs[k] < n
    requires Distinct(xs)
    ensures |xs| <= n
    decreases n
  {
    if |xs| > 0 {
      assert 0 <= xs[0] < n;
      if n - 1 in xs {
        var k :| 0 <= k < |xs| && xs[k] == n - 1;
        Pigeonhole(xs[..k] + xs[k + 1..], n - 1);
      } else {
        Pigeonhole(xs, n - 1);
      }
    }
  }

  lemma SubPath(g: Grammar, path: seq<nat>, i: nat, j: nat)
    requires LeftPath(g, path) && i <= j <= |path|
    ensures LeftPath(g, path[i..j])
  {
    forall k | 0 < k < j - i ensures Edge(g, path[i..j][k - 1], path[i..j][k]) {
      assert Edge(g, path[i + k - 1], path[i + k]);
    }
  }

  lemma LongPathRepeats(g: Grammar, path: seq<nat>) returns (i: nat, j: nat)
    requires LeftPath(g, path) && |path| > |g|
    ensures i < j < |path| && Cycle(g, path[i..j + 1])
  {
    if Distinct(path) { Pigeonhole(path, |g|); }
    i, j :| 0 <= i < j < |path| && path[i] == path[j];
    SubPath(g, path, i, j + 1);
  }

  lemma {:induction false} LeftCallIsCall(g: Grammar, t: Tree, r: nat)
    requires WellFormed(g, t, false) && LeftCall(g, t, r)
    ensures HasCall(t, r)
  {
    match t
    case TNot(p) => LeftCallIsCall(g, p, r);
    case TAnd(p) => LeftCallIsCall(g, p, r);
    case TRep(p) => LeftCallIsCall(g, p, r);
    case TSeq(p1, p2) => if LeftCall(g, p1, r) { LeftCallIsCall(g, p1, r); } else { LeftCallIsCall(g, p2, r); }
    case TChoice(p1, p2) => if LeftCall(g, p1, r) { LeftCallIsCall(g, p1, r); } else { LeftCallIsCall(g, p2, r); }
    case TCall(_) =>
  }

  lemma RejectedHasCycle(g: Grammar, r: nat)
    requires r < |g| <= MAXRULES && VerifyRule(g, g[r], [], false).TooManyLeftCalls?
    ensures !NoLeftRecursion(g)
  {
    var calls := RejectedPath(g, g[r], [], false);
    var i, j := LongPathRepeats(g, calls);
  }

  // ----- analyses of an accepted grammar never run out of depth

  /** `t` belongs to the rule at the end of `path`, up to what was consumed on the way. */
  ghost predicate Follows(g: Grammar, path: seq<nat>, t: Tree) {
    LeftPath(g, path) && (path != [] ==> forall r: nat :: LeftCall(g, t, r) && r < |g| ==> Edge(g, path[|path| - 1], r))
  }

  lemma Part(g: Grammar, path: seq<nat>, t: Tree, p: Tree)
    requires Follows(g, path, t) && forall r: nat :: LeftCall(g, p, r) ==> LeftCall(g, t, r)
    ensures Follows(g, path, p)
  {
  }

  lemma ExtendPath(g: Grammar, path: seq<nat>, t: Tree, k: nat)
    requires Follows(g, path, t) && LeftCall(g, t, k) && k < |g|
    ensures Follows(g, path + [k], g[k])
  {
    var path' := path + [k];
    forall j | 0 < j < |path'| ensures Edge(g, path'[j - 1], path'[j]) {
      if j < |path| { assert Edge(g, path[j - 1], path[j]); }
    }
  }

  /** Left paths do not repeat, so they are short. */
  lemma ShortPath(g: Grammar, path: seq<nat>)
    requires NoLeftRecursion(g) && LeftPath(g, path)
    ensures |path| <= |g|
  {
    if |path| > |g| {
      var i, j := LongPathRepeats(g, path);
    }
  }

  /** On an accepted grammar, with enough depth for the rules not yet on the path, neither more depth
      nor another answer for running out of it changes an analysis: it never runs out. */
  lemma {:induction false} DepthEnough(g: Grammar, t: Tree, main: bool, pred: Pred, path: seq<nat>, d: nat, e: nat,
      b: bool, c: bool)
    requires NoLeftRecursion(g) && WellFormedRules(g) && WellFormed(g, t, main) && Follows(g, path, t)
    requires d + |path| >= |g| && e + |path| >= |g|
    ensures CheckAux(g, t, pred, d, b) == CheckAux(g, t, pred, e, c)
    decreases d, t
  {
    match t
    case TAnd(p) =>
      if pred.PEnofail? {
        Part(g, path, t, p);
        DepthEnough(g, p, main, pred, path, d, e, b, c);
      }
    case TSeq(p1, p2) =>
      Part(g, path, t, p1);
      DepthEnough(g, p1, main, pred, path, d, e, b, c);
      if CheckAux(g, p1, pred, d, b) {
        DepthEnough(g, p1, main, pred, path, d, d, b, false);
        NofailCanBeEmpty(g, p1, pred, d);
        Part(g, path, t, p2);
        DepthEnough(g, p2, main, pred, path, d, e, b, c);
      }
    case TChoice(p1, p2) =>
      Part(g, path, t, p1);
      Part(g, path, t, p2);
      DepthEnough(g, p1, main, pred, path, d, e, b, c);
      DepthEnough(g, p2, main, pred, path, d, e, b, c);
    case TCall(k) =>
      ExtendPath(g, path, t, k);
      ShortPath(g, path + [k]);
      DepthEnough(g, g[k], false, pred, path + [k], d - 1, e - 1, b, c);
    case TGrammar =>
      ExtendPath(g, path, t, 0);
      ShortPath(g, path + [0]);
      DepthEnough(g, g[0], false, pred, path + [0], d - 1, e - 1, b, c);
    case _ =>
  }

  lemma {:induction false} NofailCanBeEmpty(g: Grammar, t: Tree, pred: Pred, d: nat)
    requires CheckAux(g, t, pred, d, false)
    ensures CanBeEmpty(g, t)
    decreases d, t
  {
    if pred.PEnofail? { NofailNullable(g, t, d); }
    CheckedEmpty(g, t, d);
  }

  lemma {:induction false} NofailNullable(g: Grammar, t: Tree, d: nat)
    requires CheckAux(g, t, PEnofail, d, false)
    ensures CheckAux(g, t, PEnullable, d, false)
    decreases d, t
  {
    match t
    case TSeq(p1, p2) => NofailNullable(g, p1, d); NofailNullable(g, p2, d);
    case TChoice(p1, p2) =>
      if CheckAux(g, p2, PEnofail, d, false) { NofailNullable(g, p2, d); } else { NofailNullable(g, p1, d); }
    case TCall(k) => NofailNullable(g, g[k], d - 1);
    case TGrammar => NofailNullable(g, g[0], d - 1);
    case _ =>
  }

  lemma {:induction false} FirstDepthEnough(g: Grammar, t: Tree, main: bool, fl: Charset, path: seq<nat>, d: nat,
      e: nat)
    requires NoLeftRecursion(g) && WellFormedRules(g) && WellFormed(g, t, main) && Follows(g, path, t)
    requires d + |path| >= |g| && e + |path| >= |g|
    ensures First(g, t, fl, d) == First(g, t, fl, e)
    decreases d, t
  {
    match t
    case TAnd(p) =>
      Part(g, path, t, p);
      FirstDepthEnough(g, p, main, fl, path, d, e);
    case TRep(p) =>
      Part(g, path, t, p);
      FirstDepthEnough(g, p, main, fl, path, d, e);
    case TSeq(p1, p2) =>
      Part(g, path, t, p1);
      DepthEnough(g, p1, main, PEnullable, path, d, e, true, true);
      if Nullable(g, p1, d) {
        DepthEnough(g, p1, main, PEnullable, path, d, d, true, false);
        NofailCanBeEmpty(g, p1, PEnullable, d);
        Part(g, path, t, p2);
        FirstDepthEnough(g, p2, main, fl, path, d, e);
        FirstDepthEnough(g, p1, main, First(g, p2, fl, d).cs, path, d, e);
      } else {
        FirstDepthEnough(g, p1, main, FULLSET, path, d, e);
      }
    case TChoice(p1, p2) =>
      Part(g, path, t, p1);
      Part(g, path, t, p2);
      FirstDepthEnough(g, p1, main, fl, path, d, e);
      FirstDepthEnough(g, p2, main, fl, path, d, e);
    case TCall(k) =>
      ExtendPath(g, path, t, k);
      ShortPath(g, path + [k]);
      FirstDepthEnough(g, g[k], false, fl, path + [k], d - 1, e - 1);
    case TGrammar =>
      ExtendPath(g, path, t, 0);
      ShortPath(g, path + [0]);
      FirstDepthEnough(g, g[0], false, fl, path + [0], d - 1, e - 1);
    case _ =>
  }

  lemma {:induction false} HeadFailDepthEnough(g: Grammar, t: Tree, main: bool, path: seq<nat>, d: nat, e: nat)
    requires NoLeftRecursion(g) && WellFormedRules(g) && WellFormed(g, t, main) && Follows(g, path, t)
    requires d + |path| >= |g| && e + |path| >= |g|
    ensures HeadFail(g, t, d) == HeadFail(g, t, e)
    decreases d, t
  {
    match t
    case TAnd(p) =>
      Part(g, path, t, p);
      HeadFailDepthEnough(g, p, main, path, d, e);
    case TSeq(p1, p2) =>
      Part(g, path, t, p1);
      HeadFailDepthEnough(g, p1, main, path, d, e);
    case TChoice(p1, p2) =>
      Part(g, path, t, p1);
      Part(g, path, t, p2);
      HeadFailDepthEnough(g, p1, main, path, d, e);
      HeadFailDepthEnough(g, p2, main, path, d, e);
    case TCall(k) =>
      ExtendPath(g, path, t, k);
      ShortPath(g, path + [k]);
      HeadFailDepthEnough(g, g[k], false, path + [k], d - 1, e - 1);
    case TGrammar =>
      ExtendPath(g, path, t, 0);
      ShortPath(g, path + [0]);
      HeadFailDepthEnough(g, g[0], false, path + [0], d - 1, e - 1);
    case _ =>
  }

  /** The nullable test used by the compiler and by `CheckLoops` is the least reading. */
  lemma NullableExact(g: Grammar, t: Tree, main: bool)
    requires NoLeftRecursion(g) && WellFormedRules(g) && WellFormed(g, t, main) && |g| <= MAXRULES
    ensures Nullable(g, t, DEPTH) <==> CanBeEmpty(g, t)
  {
    DepthEnough(g, t, main, PEnullable, [], DEPTH, DEPTH, true, false);
    if Nullable(g, t, DEPTH) { CheckedEmpty(g, t, DEPTH); }
    if CanBeEmpty(g, t) {
      var d: nat :| CheckAux(g, t, PEnullable, d, false);
      MoreDepth(g, t, d, d + DEPTH);
      DepthEnough(g, t, main, PEnullable, [], DEPTH, d + DEPTH, true, false);
    }
  }

  lemma {:induction false} LoopsExact(g: Grammar, t: Tree)
    requires NoLeftRecursion(g) && WellFormedRules(g) && WellFormed(g, t, false) && |g| <= MAXRULES
    ensures CheckLoops(g, t) <==> !NoEmptyLoop(g, t)
    decreases t
  {
    match t
    case TRep(p) => NullableExact(g, p, false); LoopsExact(g, p);
    case TNot(p) => LoopsExact(g, p);
    case TAnd(p) => LoopsExact(g, p);
    case TBehind(_, p) => LoopsExact(g, p);
    case TSeq(p1, p2) => LoopsExact(g, p1); LoopsExact(g, p2);
    case TChoice(p1, p2) => LoopsExact(g, p1); LoopsExact(g, p2);
    case _ =>
  }
}
