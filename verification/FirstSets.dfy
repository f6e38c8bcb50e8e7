module FirstSets {
  /**
   The recursion of the first-set analysis.  The C function goes into the bodies of look-behind and of
   `not` as well, only to drop what it finds there, and follows calls from there too.  `First` stops at
   them; here the recursion is as in the C text, and it is decided when it returns.
   */

  import opened Peg
  import opened Analysis
  import opened CodeGen
  import opened VerifyGrammar
  import opened LookBehind
  import opened Termination

  /** The analysis as the C text has it, or nothing if it would follow more than `d` calls in a row. */
  function Getfirst(g: Grammar, t: Tree, follow: Charset, d: nat): Option<FirstSet>
    decreases d, t
  {
    match t
    case TChar(c) => Some(FirstSet(false, {c}))
    case TSet(cs) => Some(FirstSet(false, cs))
    case TAny => Some(FirstSet(false, FULLSET))
    case TTrue => Some(FirstSet(true, follow))
    case TFalse => Some(FirstSet(false, {}))
    case TChoice(p1, p2) =>
      var f1, f2 := Getfirst(g, p1, follow, d), Getfirst(g, p2, follow, d);
      if f1.None? || f2.None? then None
      else Some(FirstSet(f1.value.e || f2.value.e, f1.value.cs + f2.value.cs))
    case TSeq(p1, p2) =>
      if !Nullable(g, p1, DEPTH) then Getfirst(g, p1, FULLSET, d)
      else
        var f2 := Getfirst(g, p2, follow, d);
        if f2.None? then None else
        var f1 := Getfirst(g, p1, f2.value.cs, d);
        if f1.None? then None else Some(FirstSet(f1.value.e && f2.value.e, f1.value.cs))
    case TRep(p) =>
      var f := Getfirst(g, p, follow, d);
      if f.None? then None else Some(FirstSet(true, f.value.cs + follow))
    case TAnd(p) =>
      var f := Getfirst(g, p, follow, d);
      if f.None? then None else Some(FirstSet(f.value.e, f.value.cs * follow))
    case TNot(p) =>
      if ToCharset(p).Some? then Some(FirstSet(true, FULLSET - ToCharset(p).value))
      else if Getfirst(g, p, follow, d).None? then None
      else Some(FirstSet(true, follow))
    case TBehind(_, p) => if Getfirst(g, p, follow, d).None? then None else Some(FirstSet(true, follow))
    case TCall(k) =>
      if k >= |g| then Some(FirstSet(false, {}))
      else if d == 0 then None
      else Getfirst(g, g[k], follow, d - 1)
    case TGrammar =>
      if 0 >= |g| then Some(FirstSet(false, {}))
      else if d == 0 then None
      else Getfirst(g, g[0], follow, d - 1)
  }

  // ----- the calls that it follows

  /** The analysis of `t` goes on to rule `r`: by a left call, of the tree or of a look-behind in it. */
  ghost predicate Follow(g: Grammar, t: Tree, r: nat) {
    match t
    case TCall(k) => r == k
    case TGrammar => r == 0
    case TNot(p) => Follow(g, p, r)
    case TAnd(p) => Follow(g, p, r)
    case TBehind(_, p) => Follow(g, p, r)
    case TRep(p) => Follow(g, p, r)
    case TSeq(p1, p2) => Follow(g, p1, r) || (CanBeEmpty(g, p1) && Follow(g, p2, r))
    case TChoice(p1, p2) => Follow(g, p1, r) || Follow(g, p2, r)
    case _ => false
  }

  ghost predicate Onward(g: Grammar, a: nat, b: nat) { a < |g| && b < |g| && Follow(g, g[a], b) }

  ghost predicate Walk(g: Grammar, path: seq<nat>) {
    && (forall k :: 0 <= k < |path| ==> path[k] < |g|)
    && (forall k :: 0 < k < |path| ==> Onward(g, path[k - 1], path[k]))
  }

  ghost predicate RoundWalk(g: Grammar, path: seq<nat>) {
    Walk(g, path) && |path| >= 2 && path[0] == path[|path| - 1]
  }

  /** No rule comes back to itself by the calls that the analysis follows. */
  ghost predicate NoRoundWalk(g: Grammar) {
    forall path :: !RoundWalk(g, path)
  }

  lemma {:induction false} FollowedCall(g: Grammar, t: Tree, r: nat)
    requires WellFormed(g, t, false) && Follow(g, t, r)
    ensures HasCall(t, r) && (LeftCall(g, t, r) || BehindCall(t, r))
  {
    hide CanBeEmpty;
    match t
    case TNot(p) => FollowedCall(g, p, r);
    case TAnd(p) => FollowedCall(g, p, r);
    case TBehind(_, p) => FollowedCall(g, p, r);
    case TRep(p) => FollowedCall(g, p, r);
    case TSeq(p1, p2) => if Follow(g, p1, r) { FollowedCall(g, p1, r); } else { FollowedCall(g, p2, r); }
    case TChoice(p1, p2) => if Follow(g, p1, r) { FollowedCall(g, p1, r); } else { FollowedCall(g, p2, r); }
    case TCall(_) =>
  }

  lemma LeftRoundWalk(g: Grammar, path: seq<nat>)
    requires RoundWalk(g, path) && forall k :: 0 < k < |path| ==> Edge(g, path[k - 1], path[k])
    ensures Cycle(g, path)
  {
  }

  /** On an accepted grammar with safe look-behind no rule comes back to itself. */
  lemma SafeHasNoRoundWalk(g: Grammar)
    requires Accepted(g) && BehindSafe(g)
    ensures NoRoundWalk(g)
  {
    hide Follow, LeftCall, BehindCall, HasCall;
    forall path | RoundWalk(g, path) ensures false {
      if forall k :: 0 < k < |path| ==> Edge(g, path[k - 1], path[k]) {
        LeftRoundWalk(g, path);
      } else {
        var k :| 0 < k < |path| && !Edge(g, path[k - 1], path[k]);
        var a, b := path[k - 1], path[k];
        assert Onward(g, a, b);
        FollowedCall(g, g[a], b);
        AroundTheWalk(g, path, k);
      }
    }
  }

  lemma AroundTheWalk(g: Grammar, path: seq<nat>, k: nat)
    requires WellFormedRules(g) && RoundWalk(g, path) && 0 < k < |path|
    ensures Reaches(g, path[k], path[k - 1])
  {
    hide Follow, HasCall;
    var round := path[k..] + path[1..k];
    forall j | 0 < j < |round| ensures Calls(g, round[j - 1], round[j]) {
      var i := if j < |path| - k then k + j else j - (|path| - k) + 1;
      assert round[j] == path[i] && round[j - 1] == path[i - 1];
      assert Onward(g, path[i - 1], path[i]);
      FollowedCall(g, g[path[i - 1]], path[i]);
    }
    assert CallPath(g, round);
    assert round[|round| - 1] == path[k - 1];
  }

  // ----- when it returns

  /** `t` belongs to the rule at the end of `path`. */
  ghost predicate OnWalk(g: Grammar, path: seq<nat>, t: Tree) {
    Walk(g, path) && (path != [] ==> forall r: nat :: Follow(g, t, r) && r < |g| ==> Onward(g, path[|path| - 1], r))
  }

  lemma PartOnWalk(g: Grammar, path: seq<nat>, t: Tree, p: Tree)
    requires OnWalk(g, path, t) && forall r: nat :: Follow(g, p, r) ==> Follow(g, t, r)
    ensures OnWalk(g, path, p)
  {
  }

  lemma ExtendWalk(g: Grammar, path: seq<nat>, t: Tree, k: nat)
    requires NoRoundWalk(g) && OnWalk(g, path, t) && Follow(g, t, k) && k < |g|
    ensures OnWalk(g, path + [k], g[k]) && |path| + 1 <= |g|
  {
    hide Follow;
    var longer := path + [k];
    forall j | 0 < j < |longer| ensures Onward(g, longer[j - 1], longer[j]) {
      if j < |path| { assert Onward(g, path[j - 1], path[j]); }
    }
    if |longer| > |g| {
      var i, j := LongWalkComesBack(g, longer);
    }
  }

  lemma LongWalkComesBack(g: Grammar, path: seq<nat>) returns (i: nat, j: nat)
    requires Walk(g, path) && |path| > |g|
    ensures i < j < |path| && RoundWalk(g, path[i..j + 1])
  {
    hide Follow;
    if Distinct(path) { Pigeonhole(path, |g|); }
    i, j :| 0 <= i < j < |path| && path[i] == path[j];
    var round := path[i..j + 1];
    forall m | 0 < m < |round| ensures Onward(g, round[m - 1], round[m]) {
      assert Onward(g, path[i + m - 1], path[i + m]);
    }
  }

  lemma {:induction false} ReturnsOnWalk(g: Grammar, t: Tree, main: bool, fl: Charset, path: seq<nat>, d: nat)
    requires Accepted(g) && |g| <= MAXRULES && NoRoundWalk(g) && WellFormed(g, t, main)
    requires OnWalk(g, path, t) && d + |path| >= |g|
    ensures Getfirst(g, t, fl, d).Some?
    decreases d, t
  {
    hide CanBeEmpty, CheckAux, NoRoundWalk, Accepted;
    match t
    case TNot(p) => PartOnWalk(g, path, t, p); ReturnsOnWalk(g, p, main, fl, path, d);
    case TAnd(p) => PartOnWalk(g, path, t, p); ReturnsOnWalk(g, p, main, fl, path, d);
    case TBehind(_, p) => PartOnWalk(g, path, t, p); ReturnsOnWalk(g, p, main, fl, path, d);
    case TRep(p) => PartOnWalk(g, path, t, p); ReturnsOnWalk(g, p, main, fl, path, d);
    case TSeq(p1, p2) =>
      PartOnWalk(g, path, t, p1);
      AcceptedNullable(g, p1, main);
      if Nullable(g, p1, DEPTH) {
        PartOnWalk(g, path, t, p2);
        ReturnsOnWalk(g, p2, main, fl, path, d);
        ReturnsOnWalk(g, p1, main, Getfirst(g, p2, fl, d).value.cs, path, d);
      } else {
        ReturnsOnWalk(g, p1, main, FULLSET, path, d);
      }
    case TChoice(p1, p2) =>
      PartOnWalk(g, path, t, p1);
      PartOnWalk(g, path, t, p2);
      ReturnsOnWalk(g, p1, main, fl, path, d);
      ReturnsOnWalk(g, p2, main, fl, path, d);
    case TCall(k) => RuleOnWalk(g, t, k, fl, path, d);
    case TGrammar => RuleOnWalk(g, t, 0, fl, path, d);
    case _ =>
  }

  lemma {:induction false} RuleOnWalk(g: Grammar, t: Tree, k: nat, fl: Charset, path: seq<nat>, d: nat)
    requires Accepted(g) && |g| <= MAXRULES && NoRoundWalk(g) && k < |g| && Follow(g, t, k)
    requires OnWalk(g, path, t) && d + |path| >= |g|
    ensures d > 0 && Getfirst(g, g[k], fl, d - 1).Some?
    decreases d, t, 0
  {
    hide NoRoundWalk, OnWalk;
    AcceptedParts(g);
    ExtendWalk(g, path, t, k);
    ReturnsOnWalk(g, g[k], false, fl, path + [k], d - 1);
  }

  lemma AcceptedNullable(g: Grammar, t: Tree, main: bool)
    requires Accepted(g) && |g| <= MAXRULES && WellFormed(g, t, main)
    ensures Nullable(g, t, DEPTH) <==> CanBeEmpty(g, t)
  {
    AcceptedParts(g);
    NullableExact(g, t, main);
  }

  /** A walk that returns follows shorter walks through each rule that it goes on to. */
  lemma {:induction false} ReturnsThrough(g: Grammar, t: Tree, main: bool, fl: Charset, d: nat, r: nat)
      returns (fl': Charset)
    requires Accepted(g) && |g| <= MAXRULES && WellFormed(g, t, main)
    requires Getfirst(g, t, fl, d).Some? && Follow(g, t, r) && r < |g|
    ensures d > 0 && Getfirst(g, g[r], fl', d - 1).Some?
    decreases t
  {
    hide CanBeEmpty, CheckAux, Accepted;
    match t
    case TNot(p) => fl' := ReturnsThrough(g, p, main, fl, d, r);
    case TAnd(p) => fl' := ReturnsThrough(g, p, main, fl, d, r);
    case TBehind(_, p) => fl' := ReturnsThrough(g, p, main, fl, d, r);
    case TRep(p) => fl' := ReturnsThrough(g, p, main, fl, d, r);
    case TSeq(p1, p2) =>
      AcceptedNullable(g, p1, main);
      if Nullable(g, p1, DEPTH) {
        if Follow(g, p2, r) {
          fl' := ReturnsThrough(g, p2, main, fl, d, r);
        } else {
          fl' := ReturnsThrough(g, p1, main, Getfirst(g, p2, fl, d).value.cs, d, r);
        }
      } else {
        fl' := ReturnsThrough(g, p1, main, FULLSET, d, r);
      }
    case TChoice(p1, p2) =>
      if Follow(g, p1, r) {
        fl' := ReturnsThrough(g, p1, main, fl, d, r);
      } else {
        fl' := ReturnsThrough(g, p2, main, fl, d, r);
      }
    case TCall(_) => fl' := fl;
    case TGrammar => fl' := fl;
  }

  lemma {:induction false} AlongTheWalk(g: Grammar, path: seq<nat>, fl: Charset, d: nat) returns (fl': Charset)
    requires Accepted(g) && |g| <= MAXRULES && path != [] && Walk(g, path)
    requires Getfirst(g, g[path[0]], fl, d).Some?
    ensures d >= |path| - 1 && Getfirst(g, g[path[|path| - 1]], fl', d - (|path| - 1)).Some?
    decreases |path|
  {
    hide Getfirst, Accepted, Follow;
    if |path| == 1 {
      fl' := fl;
    } else {
      AcceptedParts(g);
      assert Onward(g, path[0], path[1]);
      var through := ReturnsThrough(g, g[path[0]], false, fl, d, path[1]);
      forall k | 0 < k < |path| - 1 ensures Onward(g, path[1..][k - 1], path[1..][k]) {
        assert Onward(g, path[k], path[k + 1]);
      }
      fl' := AlongTheWalk(g, path[1..], through, d - 1);
    }
  }

  /** From a rule that comes back to itself the analysis never returns. */
  lemma {:induction false} NeverReturns(g: Grammar, path: seq<nat>, fl: Charset, d: nat)
    requires Accepted(g) && |g| <= MAXRULES && RoundWalk(g, path)
    ensures Getfirst(g, g[path[0]], fl, d).None?
    decreases d
  {
    hide Getfirst, Accepted, Onward;
    if Getfirst(g, g[path[0]], fl, d).Some? {
      var fl' := AlongTheWalk(g, path, fl, d);
      NeverReturns(g, path, fl', d - (|path| - 1));
    }
  }

  /** The analysis returns on every rule of an accepted grammar if and only if no rule comes back to
      itself by left calls, those inside a look-behind included. */
  lemma GetfirstReturns(g: Grammar)
    requires Accepted(g) && |g| <= MAXRULES
    ensures (forall k: nat, fl :: k < |g| ==> Getfirst(g, g[k], fl, DEPTH).Some?) <==> NoRoundWalk(g)
    ensures !NoRoundWalk(g) ==> exists k: nat :: k < |g| && forall fl, d: nat :: Getfirst(g, g[k], fl, d).None?
  {
    hide Getfirst, Accepted, RoundWalk;
    if NoRoundWalk(g) {
      AcceptedParts(g);
      forall k: nat, fl | k < |g| ensures Getfirst(g, g[k], fl, DEPTH).Some? {
        NothingWalked(g, g[k]);
        ReturnsOnWalk(g, g[k], false, fl, [], DEPTH);
      }
    } else {
      var path :| RoundWalk(g, path);
      StartsInside(g, path);
      var k := path[0];
      forall fl, d: nat ensures Getfirst(g, g[k], fl, d).None? { NeverReturns(g, path, fl, d); }
      assert Getfirst(g, g[k], FULLSET, DEPTH).None?;
    }
  }

  lemma NothingWalked(g: Grammar, t: Tree)
    ensures OnWalk(g, [], t)
  {
  }

  lemma StartsInside(g: Grammar, path: seq<nat>)
    requires RoundWalk(g, path)
    ensures path != [] && path[0] < |g|
  {
  }

  // ----- what it returns

  lemma {:induction false} ReturnsFirst(g: Grammar, t: Tree, main: bool, fl: Charset, path: seq<nat>, d: nat, e: nat)
    requires Accepted(g) && |g| <= MAXRULES && WellFormed(g, t, main) && Follows(g, path, t) && e + |path| >= |g|
    requires Getfirst(g, t, fl, d).Some?
    ensures Getfirst(g, t, fl, d).value == First(g, t, fl, e)
    decreases d, t
  {
    hide CheckAux, Accepted;
    AcceptedParts(g);
    match t
    case TAnd(p) => Part(g, path, t, p); ReturnsFirst(g, p, main, fl, path, d, e);
    case TRep(p) => Part(g, path, t, p); ReturnsFirst(g, p, main, fl, path, d, e);
    case TSeq(p1, p2) =>
      Part(g, path, t, p1);
      SameNullable(g, p1, main, path, e);
      if Nullable(g, p1, DEPTH) {
        AcceptedNullable(g, p1, main);
        Part(g, path, t, p2);
        ReturnsFirst(g, p2, main, fl, path, d, e);
        ReturnsFirst(g, p1, main, Getfirst(g, p2, fl, d).value.cs, path, d, e);
      } else {
        ReturnsFirst(g, p1, main, FULLSET, path, d, e);
      }
    case TChoice(p1, p2) =>
      Part(g, path, t, p1);
      Part(g, path, t, p2);
      ReturnsFirst(g, p1, main, fl, path, d, e);
      ReturnsFirst(g, p2, main, fl, path, d, e);
    case TCall(k) =>
      ExtendPath(g, path, t, k);
      ShortPath(g, path + [k]);
      ReturnsFirst(g, g[k], false, fl, path + [k], d - 1, e - 1);
    case TGrammar =>
      ExtendPath(g, path, t, 0);
      ShortPath(g, path + [0]);
      ReturnsFirst(g, g[0], false, fl, path + [0], d - 1, e - 1);
    case _ =>
  }

  lemma SameNullable(g: Grammar, t: Tree, main: bool, path: seq<nat>, e: nat)
    requires Accepted(g) && |g| <= MAXRULES && WellFormed(g, t, main) && Follows(g, path, t) && e + |path| >= |g|
    ensures Nullable(g, t, e) == Nullable(g, t, DEPTH)
  {
    DepthEnough(g, t, main, PEnullable, path, e, DEPTH, true, true);
  }

  /** For every tree over an accepted grammar in which no rule comes back to itself, as is the case if
      look-behind is safe, the analysis returns the first set. */
  lemma GetfirstIsFirst(g: Grammar, t: Tree, main: bool, fl: Charset)
    requires Accepted(g) && |g| <= MAXRULES && WellFormed(g, t, main) && NoRoundWalk(g)
    ensures Getfirst(g, t, fl, DEPTH) == Some(First(g, t, fl, DEPTH))
  {
    hide Getfirst, Accepted, NoRoundWalk;
    NothingWalked(g, t);
    ReturnsOnWalk(g, t, main, fl, [], DEPTH);
    assert LeftPath(g, []);
    ReturnsFirst(g, t, main, fl, [], DEPTH, DEPTH);
  }
}
