module FixAccepted {
  /**
   Making a pattern right associative changes nothing that the checks of patterns and grammars look
   at: what was accepted as it was built is accepted as it is compiled, and the other way round.
   */

  import opened Peg
  import opened Analysis
  import opened CodeGen
  import opened VerifyGrammar
  import opened LookBehind
  import opened Termination
  import opened FlatTree
  import opened TreeMeaning

  // ----- the parts of a tree are smaller

  lemma SmallerParts(t: Tree)
    ensures IsOp(t) ==> Slots(t.p1) < Slots(t) && Slots(t.p2) < Slots(t)
    ensures IsOp(t) && SameOp(t.p1, t) ==> Slots(RotateOnce(t)) == Slots(t)
    ensures IsUnary(t) ==> Slots(t.p) < Slots(t)
  {
    if IsOp(t) && SameOp(t.p1, t) { RotatedLayout(t); }
  }

  /** What decreases when a tree is rotated. */
  function Inner(t: Tree): Tree { if IsOp(t) then t.p1 else t }

  lemma FixedRule(g: Grammar, k: nat)
    requires k < |g|
    ensures |FixAll(g)| == |g| && FixAll(g)[k] == Fix(g[k])
  {
  }

  // ----- the analyses that follow calls

  lemma CheckAuxRotated(g: Grammar, t: Tree, pred: Pred, d: nat, giveUp: bool)
    requires IsOp(t) && SameOp(t.p1, t)
    ensures CheckAux(g, RotateOnce(t), pred, d, giveUp) == CheckAux(g, t, pred, d, giveUp)
  {
  }

  lemma {:induction false} FixCheckAux(g: Grammar, t: Tree, pred: Pred, d: nat, giveUp: bool)
    ensures CheckAux(FixAll(g), Fix(t), pred, d, giveUp) == CheckAux(g, t, pred, d, giveUp)
    decreases d, Slots(t), Inner(t)
  {
    hide FixAll, Fix, Slots;
    SmallerParts(t);
    FixedCases(t);
    if IsOp(t) && SameOp(t.p1, t) {
      SameFix(t);
      FixCheckAux(g, RotateOnce(t), pred, d, giveUp);
      CheckAuxRotated(g, t, pred, d, giveUp);
    } else if IsOp(t) {
      FixedOp(t);
      FixCheckAux(g, t.p1, pred, d, giveUp);
      FixCheckAux(g, t.p2, pred, d, giveUp);
    } else if IsUnary(t) {
      FixCheckAux(g, t.p, pred, d, giveUp);
    } else if t.TCall? || t.TGrammar? {
      var k := if t.TCall? then t.rule else 0;
      SameRules(g);
      if k < |g| && d > 0 {
        FixedRule(g, k);
        FixCheckAux(g, g[k], pred, d - 1, giveUp);
      }
    }
  }

  lemma SameRules(g: Grammar)
    ensures |FixAll(g)| == |g|
  {
  }

  lemma FixedLenRotated(g: Grammar, t: Tree, count: nat, len: nat)
    requires IsOp(t) && SameOp(t.p1, t)
    ensures FixedLenX(g, RotateOnce(t), count, len) == FixedLenX(g, t, count, len)
  {
  }

  lemma {:induction false} FixFixedLen(g: Grammar, t: Tree, count: nat, len: nat)
    ensures FixedLenX(FixAll(g), Fix(t), count, len) == FixedLenX(g, t, count, len)
    decreases MAXRULES - count, Slots(t), Inner(t)
  {
    hide FixAll, Fix, Slots;
    SmallerParts(t);
    FixedCases(t);
    if IsOp(t) && SameOp(t.p1, t) {
      SameFix(t);
      FixFixedLen(g, RotateOnce(t), count, len);
      FixedLenRotated(g, t, count, len);
    } else if IsOp(t) {
      FixedOp(t);
      FixFixedLen(g, t.p1, count, len);
      var l := FixedLenX(g, t.p1, count, len);
      if t.TChoice? {
        FixFixedLen(g, t.p2, count, len);
      } else if l >= 0 {
        FixFixedLen(g, t.p2, count, l);
      }
    } else if t.TCall? || t.TGrammar? {
      var k := if t.TCall? then t.rule else 0;
      SameRules(g);
      if k < |g| && count < MAXRULES {
        FixedRule(g, k);
        FixFixedLen(g, g[k], count + 1, len);
      }
    }
  }

  lemma FixCanBeEmpty(g: Grammar, t: Tree)
    ensures CanBeEmpty(FixAll(g), Fix(t)) <==> CanBeEmpty(g, t)
  {
    hide FixAll, Fix, CheckAux;
    forall d: nat ensures CheckAux(FixAll(g), Fix(t), PEnullable, d, false) == CheckAux(g, t, PEnullable, d, false) {
      FixCheckAux(g, t, PEnullable, d, false);
    }
    if CanBeEmpty(g, t) {
      var d: nat :| EmptyAt(g, t, d);
      CheckedEmpty(FixAll(g), Fix(t), d);
    }
    if CanBeEmpty(FixAll(g), Fix(t)) {
      var d: nat :| EmptyAt(FixAll(g), Fix(t), d);
      CheckedEmpty(g, t, d);
    }
  }

  // ----- what is checked of a tree

  /** Tree `u` over grammar `h` stands to the checks as tree `t` does over grammar `g`. */
  ghost predicate Alike(g: Grammar, t: Tree, h: Grammar, u: Tree) {
    && (forall r: nat :: HasCall(t, r) <==> HasCall(u, r))
    && (forall r: nat :: LeftCall(g, t, r) <==> LeftCall(h, u, r))
    && (NoEmptyLoop(g, t) <==> NoEmptyLoop(h, u))
    && (forall r: nat :: BehindCall(t, r) <==> BehindCall(u, r))
    && (forall main :: WellFormed(g, t, main) <==> WellFormed(h, u, main))
  }

  lemma CheckedSeq(g: Grammar, a: Tree, b: Tree, d: nat)
    ensures CheckAux(g, TSeq(a, b), PEnullable, d, false)
       <==> CheckAux(g, a, PEnullable, d, false) && CheckAux(g, b, PEnullable, d, false)
  {
  }

  lemma EmptySeq(g: Grammar, a: Tree, b: Tree)
    ensures CanBeEmpty(g, TSeq(a, b)) <==> CanBeEmpty(g, a) && CanBeEmpty(g, b)
  {
    if CanBeEmpty(g, a) && CanBeEmpty(g, b) {
      var d: nat :| CheckAux(g, a, PEnullable, d, false);
      var e: nat :| CheckAux(g, b, PEnullable, e, false);
      MoreDepth(g, a, d, d + e);
      MoreDepth(g, b, e, d + e);
      CheckedEmpty(g, TSeq(a, b), d + e);
    }
    if CanBeEmpty(g, TSeq(a, b)) {
      var d: nat :| CheckAux(g, TSeq(a, b), PEnullable, d, false);
      CheckedSeq(g, a, b, d);
      CheckedEmpty(g, a, d);
      CheckedEmpty(g, b, d);
    }
  }

  lemma AlikeRotated(g: Grammar, t: Tree)
    requires IsOp(t) && SameOp(t.p1, t)
    ensures Alike(g, t, g, RotateOnce(t))
  {
    hide CanBeEmpty, FixedLenX;
    var u := RotateOnce(t);
    if t.TSeq? {
      assert t.p1 == TSeq(t.p1.p1, t.p1.p2);
      EmptySeq(g, t.p1.p1, t.p1.p2);
    }
    forall r: nat ensures HasCall(t, r) <==> HasCall(u, r) { HasCallRotated(t, r); }
    forall r: nat ensures LeftCall(g, t, r) <==> LeftCall(g, u, r) { LeftCallRotated(g, t, r); }
    forall main ensures WellFormed(g, t, main) <==> WellFormed(g, u, main) { WellFormedRotated(g, t, main); }
    LoopsAndCallsRotated(g, t);
  }

  lemma LoopsAndCallsRotated(g: Grammar, t: Tree)
    requires IsOp(t) && SameOp(t.p1, t)
    ensures NoEmptyLoop(g, t) <==> NoEmptyLoop(g, RotateOnce(t))
    ensures forall r: nat :: BehindCall(t, r) <==> BehindCall(RotateOnce(t), r)
  {
    hide CanBeEmpty;
  }

  lemma HasCallRotated(t: Tree, r: nat)
    requires IsOp(t) && SameOp(t.p1, t)
    ensures HasCall(t, r) <==> HasCall(RotateOnce(t), r)
  {
  }

  lemma LeftCallRotated(g: Grammar, t: Tree, r: nat)
    requires IsOp(t) && SameOp(t.p1, t)
    requires t.TSeq? ==> (CanBeEmpty(g, t.p1) <==> CanBeEmpty(g, t.p1.p1) && CanBeEmpty(g, t.p1.p2))
    ensures LeftCall(g, t, r) <==> LeftCall(g, RotateOnce(t), r)
  {
    hide CanBeEmpty;
  }

  lemma WellFormedRotated(g: Grammar, t: Tree, main: bool)
    requires IsOp(t) && SameOp(t.p1, t)
    ensures WellFormed(g, t, main) <==> WellFormed(g, RotateOnce(t), main)
  {
    hide FixedLenX;
  }

  lemma AlikeOp(g: Grammar, t: Tree, h: Grammar, u: Tree)
    requires IsOp(t) && SameOp(t, u) && Alike(g, t.p1, h, u.p1) && Alike(g, t.p2, h, u.p2)
    requires CanBeEmpty(g, t.p1) <==> CanBeEmpty(h, u.p1)
    ensures Alike(g, t, h, u)
  {
    hide CanBeEmpty, FixedLenX;
    forall r: nat ensures HasCall(t, r) <==> HasCall(u, r) {
      assert HasCall(t.p1, r) <==> HasCall(u.p1, r);
    }
    forall r: nat ensures LeftCall(g, t, r) <==> LeftCall(h, u, r) {
      assert LeftCall(g, t.p1, r) <==> LeftCall(h, u.p1, r);
      assert LeftCall(g, t.p2, r) <==> LeftCall(h, u.p2, r);
    }
    forall r: nat ensures BehindCall(t, r) <==> BehindCall(u, r) {
      assert BehindCall(t.p1, r) <==> BehindCall(u.p1, r);
    }
    forall main ensures WellFormed(g, t, main) <==> WellFormed(h, u, main) {
      assert WellFormed(g, t.p1, main) <==> WellFormed(h, u.p1, main);
    }
  }

  lemma AlikeUnary(g: Grammar, t: Tree, h: Grammar, p: Tree)
    requires IsUnary(t) && Alike(g, t.p, h, p)
    requires CanBeEmpty(g, t.p) <==> CanBeEmpty(h, p)
    requires FixedLen(g, t.p) == FixedLen(h, p)
    ensures Alike(g, t, h, Wrap(t, p))
  {
    hide CanBeEmpty, FixedLenX;
    var u := Wrap(t, p);
    forall r: nat ensures HasCall(t, r) <==> HasCall(u, r) {
      assert HasCall(t.p, r) <==> HasCall(p, r);
    }
    forall r: nat ensures LeftCall(g, t, r) <==> LeftCall(h, u, r) {
      assert LeftCall(g, t.p, r) <==> LeftCall(h, p, r);
    }
    forall r: nat ensures BehindCall(t, r) <==> BehindCall(u, r) {
      assert BehindCall(t.p, r) <==> BehindCall(p, r);
    }
    forall main ensures WellFormed(g, t, main) <==> WellFormed(h, u, main) {
      assert WellFormed(g, t.p, main) <==> WellFormed(h, p, main);
    }
  }

  lemma AlikeLeaf(g: Grammar, h: Grammar, t: Tree)
    requires !IsOp(t) && !IsUnary(t) && |g| == |h|
    ensures Alike(g, t, h, t)
  {
  }

  lemma {:induction false} FixAlike(g: Grammar, t: Tree)
    ensures Alike(g, t, FixAll(g), Fix(t))
    decreases Slots(t), Inner(t)
  {
    hide FixAll, Fix, Slots, Alike, CanBeEmpty;
    var h := FixAll(g);
    SmallerParts(t);
    FixedCases(t);
    if IsOp(t) && SameOp(t.p1, t) {
      SameFix(t);
      FixAlike(g, RotateOnce(t));
      AlikeRotated(g, t);
      AlikeTrans(g, t, RotateOnce(t), h, Fix(t));
    } else if IsOp(t) {
      FixedOp(t);
      FixAlike(g, t.p1);
      FixAlike(g, t.p2);
      FixCanBeEmpty(g, t.p1);
      AlikeOp(g, t, h, Fix(t));
    } else if IsUnary(t) {
      FixAlike(g, t.p);
      FixCanBeEmpty(g, t.p);
      FixFixedLen(g, t.p, 0, 0);
      AlikeUnary(g, t, h, Fix(t.p));
    } else {
      SameRules(g);
      AlikeLeaf(g, h, t);
    }
  }

  lemma AlikeTrans(g: Grammar, t: Tree, u: Tree, h: Grammar, v: Tree)
    requires Alike(g, t, g, u) && Alike(g, u, h, v)
    ensures Alike(g, t, h, v)
  {
    hide HasCall, LeftCall, NoEmptyLoop, BehindCall, WellFormed;
  }

  // ----- what is checked of a grammar

  lemma FixEdge(g: Grammar, a: nat, b: nat)
    ensures Edge(FixAll(g), a, b) <==> Edge(g, a, b)
  {
    hide FixAll, Fix;
    SameRules(g);
    if a < |g| {
      FixedRule(g, a);
      FixAlike(g, g[a]);
    }
  }

  lemma FixLeftRecursion(g: Grammar)
    ensures NoLeftRecursion(FixAll(g)) <==> NoLeftRecursion(g)
  {
    hide FixAll, Edge;
    SameRules(g);
    forall path: seq<nat> ensures Cycle(FixAll(g), path) <==> Cycle(g, path) {
      forall k | 0 < k < |path| ensures Edge(FixAll(g), path[k - 1], path[k]) <==> Edge(g, path[k - 1], path[k]) {
        FixEdge(g, path[k - 1], path[k]);
      }
    }
  }

  lemma FixUsed(g: Grammar, r: nat)
    ensures Used(FixAll(g), r) <==> Used(g, r)
  {
    hide FixAll, Fix;
    SameRules(g);
    forall k: nat | k < |g| ensures HasCall(FixAll(g)[k], r) <==> HasCall(g[k], r) {
      FixedRule(g, k);
      FixAlike(g, g[k]);
    }
  }

  lemma FixEmptyLoops(g: Grammar)
    ensures NoEmptyLoops(FixAll(g)) <==> NoEmptyLoops(g)
  {
    hide FixAll, Fix, Used, NoEmptyLoop;
    SameRules(g);
    forall r: nat | r < |g|
      ensures (Used(FixAll(g), r) ==> NoEmptyLoop(FixAll(g), FixAll(g)[r])) <==> (Used(g, r) ==> NoEmptyLoop(g, g[r]))
    {
      FixUsed(g, r);
      FixedRule(g, r);
      FixAlike(g, g[r]);
    }
  }

  lemma FixWellFormedRules(g: Grammar)
    ensures WellFormedRules(FixAll(g)) <==> WellFormedRules(g)
  {
    hide FixAll, Fix, WellFormed;
    SameRules(g);
    forall k: nat | k < |g| ensures WellFormed(FixAll(g), FixAll(g)[k], false) <==> WellFormed(g, g[k], false) {
      FixedRule(g, k);
      FixAlike(g, g[k]);
    }
  }

  lemma FixReaches(g: Grammar, a: nat, b: nat)
    ensures Reaches(FixAll(g), a, b) <==> Reaches(g, a, b)
  {
    hide FixAll, Calls;
    SameRules(g);
    forall path: seq<nat> ensures CallPath(FixAll(g), path) <==> CallPath(g, path) {
      forall k | 0 < k < |path| ensures Calls(FixAll(g), path[k - 1], path[k]) <==> Calls(g, path[k - 1], path[k]) {
        FixCalls(g, path[k - 1], path[k]);
      }
    }
  }

  lemma FixCalls(g: Grammar, a: nat, b: nat)
    ensures Calls(FixAll(g), a, b) <==> Calls(g, a, b)
  {
    hide FixAll, Fix;
    SameRules(g);
    if a < |g| {
      FixedRule(g, a);
      FixAlike(g, g[a]);
    }
  }

  /** Nor does it matter to calls inside look-behind. */
  lemma BehindSafeFixed(g: Grammar)
    ensures BehindSafe(FixAll(g)) <==> BehindSafe(g)
  {
    hide FixAll, Fix, Reaches;
    SameRules(g);
    forall a: nat, b: nat | a < |g| && b < |g|
      ensures BehindCall(FixAll(g)[a], b) <==> BehindCall(g[a], b)
      ensures Reaches(FixAll(g), b, a) <==> Reaches(g, b, a)
    {
      FixedRule(g, a);
      FixAlike(g, g[a]);
      FixReaches(g, b, a);
    }
  }

  /** A grammar is accepted with its rules as they were built if and only if it is with its rules made
      right associative. */
  lemma GrammarAcceptedFixed(g: Grammar)
    ensures Accepted(FixAll(g)) <==> Accepted(g)
  {
    hide FixAll, NoLeftRecursion, NoEmptyLoops, WellFormedRules;
    FixLeftRecursion(g);
    FixEmptyLoops(g);
    FixWellFormedRules(g);
  }

  /** And so is a pattern over it. */
  lemma AcceptedFixed(g: Grammar, t: Tree)
    ensures AcceptedPattern(FixAll(g), Fix(t)) <==> AcceptedPattern(g, t)
  {
    hide FixAll, Fix, Accepted, WellFormed, NoEmptyLoop;
    SameRules(g);
    GrammarAcceptedFixed(g);
    FixAlike(g, t);
  }
}
