module Occurrences {
  /**
   Where calls and repetitions stand in a tree.  What the grammar check and the analyses collect on
   their way through a tree is said here by places: the way to a subtree, a turn at every node.
   */

  import opened Peg
  import opened VerifyGrammar
  import opened LookBehind
  import opened FirstSets

  /** The first child, or the second one. */
  function Child(t: Tree, second: bool): Option<Tree> {
    match t
    case TRep(p) => if second then None else Some(p)
    case TNot(p) => if second then None else Some(p)
    case TAnd(p) => if second then None else Some(p)
    case TBehind(_, p) => if second then None else Some(p)
    case TSeq(p1, p2) => Some(if second then p2 else p1)
    case TChoice(p1, p2) => Some(if second then p2 else p1)
    case _ => None
  }

  type Place = seq<bool>

  /** The subtree of `t` at `place`, from which `place` tells the child to go to at every node. */
  function At(t: Tree, place: Place): (r: Option<Tree>)
    ensures place == [] ==> r == Some(t)
    decreases |place|
  {
    if place == [] then Some(t) else
    match Child(t, place[0])
    case None => None
    case Some(p) => At(p, place[1..])
  }

  /** On the way to `place` every turn is one that `open` allows. */
  ghost predicate Passable(t: Tree, place: Place, open: (Tree, bool) -> bool) {
    forall k :: 0 <= k < |place| ==> At(t, place[..k]).Some? && open(At(t, place[..k]).value, place[k])
  }

  lemma FirstTurn(t: Tree, place: Place, k: nat)
    requires place != [] && 1 <= k <= |place|
    ensures At(t, place[..k]) == match Child(t, place[0]) case None => None case Some(p) => At(p, place[1..][..k - 1])
  {
    assert place[..k][1..] == place[1..][..k - 1];
  }

  /** A passable way is one turn that is allowed, and a passable way from there. */
  lemma OneTurn(t: Tree, place: Place, open: (Tree, bool) -> bool)
    requires place != [] && Child(t, place[0]).Some?
    ensures Passable(t, place, open) <==> open(t, place[0]) && Passable(Child(t, place[0]).value, place[1..], open)
  {
    var rest, p := place[1..], Child(t, place[0]).value;
    assert At(t, place[..0]) == Some(t);
    forall k | 1 <= k <= |place| ensures At(t, place[..k]) == At(p, rest[..k - 1]) { FirstTurn(t, place, k); }
    if Passable(t, place, open) {
      forall k | 0 <= k < |rest| ensures At(p, rest[..k]).Some? && open(At(p, rest[..k]).value, rest[k]) {
        assert At(t, place[..k + 1]).Some?;
      }
    }
  }

  // ----- calls

  predicate CallAt(t: Tree, place: Place, r: nat) { At(t, place) == Some(TCall(r)) }

  lemma HasCallExactly(t: Tree, r: nat)
    ensures HasCall(t, r) <==> exists place :: CallAt(t, place, r)
  {
    if HasCall(t, r) { var place := PlaceOfCall(t, r); }
    forall place | CallAt(t, place, r) ensures HasCall(t, r) { CallInPlace(t, r, place); }
  }

  lemma {:induction false} PlaceOfCall(t: Tree, r: nat) returns (place: Place)
    requires HasCall(t, r)
    ensures CallAt(t, place, r)
  {
    if t.TCall? {
      place := [];
    } else {
      var second := (t.TSeq? || t.TChoice?) && !HasCall(t.p1, r);
      var rest := PlaceOfCall(Child(t, second).value, r);
      place := [second] + rest;
    }
  }

  lemma {:induction false} CallInPlace(t: Tree, r: nat, place: Place)
    requires CallAt(t, place, r)
    ensures HasCall(t, r)
    decreases |place|
  {
    if place != [] { CallInPlace(Child(t, place[0]).value, r, place[1..]); }
  }

  /** A look-behind stands on the way to `place`. */
  ghost predicate InsideBehind(t: Tree, place: Place) {
    exists k :: 0 <= k < |place| && At(t, place[..k]).Some? && At(t, place[..k]).value.TBehind?
  }

  lemma BehindCallExactly(t: Tree, r: nat)
    ensures BehindCall(t, r) <==> exists place :: CallAt(t, place, r) && InsideBehind(t, place)
  {
    if BehindCall(t, r) { var place := PlaceBehind(t, r); }
    forall place | CallAt(t, place, r) && InsideBehind(t, place) ensures BehindCall(t, r) {
      BehindInPlace(t, r, place);
    }
  }

  lemma {:induction false} PlaceBehind(t: Tree, r: nat) returns (place: Place)
    requires BehindCall(t, r)
    ensures CallAt(t, place, r) && InsideBehind(t, place)
  {
    if t.TBehind? {
      var rest := PlaceOfCall(t.p, r);
      place := [false] + rest;
      assert At(t, place[..0]) == Some(t);
    } else {
      var second := (t.TSeq? || t.TChoice?) && !BehindCall(t.p1, r);
      var rest := PlaceBehind(Child(t, second).value, r);
      place := [second] + rest;
      var k :| 0 <= k < |rest| && At(Child(t, second).value, rest[..k]).Some?
               && At(Child(t, second).value, rest[..k]).value.TBehind?;
      FirstTurn(t, place, k + 1);
    }
  }

  lemma {:induction false} BehindInPlace(t: Tree, r: nat, place: Place)
    requires CallAt(t, place, r) && InsideBehind(t, place)
    ensures BehindCall(t, r)
    decreases |place|
  {
    var p := Child(t, place[0]).value;
    if t.TBehind? {
      CallInPlace(p, r, place[1..]);
    } else {
      var k :| 0 <= k < |place| && At(t, place[..k]).Some? && At(t, place[..k]).value.TBehind?;
      FirstTurn(t, place, k);
      BehindInPlace(p, r, place[1..]);
    }
  }

  // ----- calls before anything is consumed

  /** A turn that leaves nothing behind that must consume, into anything but a look-behind. */
  ghost function Ahead(g: Grammar): (Tree, bool) -> bool {
    (t: Tree, second: bool) => !t.TBehind? && (t.TSeq? && second ==> CanBeEmpty(g, t.p1))
  }

  /** The same, with look-behinds. */
  ghost function AheadOrBehind(g: Grammar): (Tree, bool) -> bool {
    (t: Tree, second: bool) => t.TSeq? && second ==> CanBeEmpty(g, t.p1)
  }

  predicate IsRule(t: Option<Tree>, r: nat) { t == Some(TCall(r)) || (t == Some(TGrammar) && r == 0) }

  lemma LeftCallExactly(g: Grammar, t: Tree, r: nat)
    ensures LeftCall(g, t, r) <==> exists place :: IsRule(At(t, place), r) && Passable(t, place, Ahead(g))
  {
    if LeftCall(g, t, r) { var place := PlaceAhead(g, t, r); }
    forall place | IsRule(At(t, place), r) && Passable(t, place, Ahead(g)) ensures LeftCall(g, t, r) {
      AheadInPlace(g, t, r, place);
    }
  }

  lemma {:induction false} PlaceAhead(g: Grammar, t: Tree, r: nat) returns (place: Place)
    requires LeftCall(g, t, r)
    ensures IsRule(At(t, place), r) && Passable(t, place, Ahead(g))
  {
    if t.TCall? || t.TGrammar? {
      place := [];
    } else {
      var second := (t.TSeq? || t.TChoice?) && !LeftCall(g, t.p1, r);
      var rest := PlaceAhead(g, Child(t, second).value, r);
      place := [second] + rest;
      OneTurn(t, place, Ahead(g));
    }
  }

  lemma {:induction false} AheadInPlace(g: Grammar, t: Tree, r: nat, place: Place)
    requires IsRule(At(t, place), r) && Passable(t, place, Ahead(g))
    ensures LeftCall(g, t, r)
    decreases |place|
  {
    if place != [] {
      OneTurn(t, place, Ahead(g));
      AheadInPlace(g, Child(t, place[0]).value, r, place[1..]);
    }
  }

  lemma FollowExactly(g: Grammar, t: Tree, r: nat)
    ensures Follow(g, t, r) <==> exists place :: IsRule(At(t, place), r) && Passable(t, place, AheadOrBehind(g))
  {
    if Follow(g, t, r) { var place := PlaceFollowed(g, t, r); }
    forall place | IsRule(At(t, place), r) && Passable(t, place, AheadOrBehind(g)) ensures Follow(g, t, r) {
      FollowedInPlace(g, t, r, place);
    }
  }

  lemma {:induction false} PlaceFollowed(g: Grammar, t: Tree, r: nat) returns (place: Place)
    requires Follow(g, t, r)
    ensures IsRule(At(t, place), r) && Passable(t, place, AheadOrBehind(g))
  {
    if t.TCall? || t.TGrammar? {
      place := [];
    } else {
      var second := (t.TSeq? || t.TChoice?) && !Follow(g, t.p1, r);
      var rest := PlaceFollowed(g, Child(t, second).value, r);
      place := [second] + rest;
      OneTurn(t, place, AheadOrBehind(g));
    }
  }

  lemma {:induction false} FollowedInPlace(g: Grammar, t: Tree, r: nat, place: Place)
    requires IsRule(At(t, place), r) && Passable(t, place, AheadOrBehind(g))
    ensures Follow(g, t, r)
    decreases |place|
  {
    if place != [] {
      OneTurn(t, place, AheadOrBehind(g));
      FollowedInPlace(g, Child(t, place[0]).value, r, place[1..]);
    }
  }

  // ----- empty loops

  ghost predicate IsEmptyLoop(g: Grammar, t: Option<Tree>) {
    t.Some? && t.value.TRep? && CanBeEmpty(g, t.value.p)
  }

  lemma EmptyLoopExactly(g: Grammar, t: Tree)
    ensures NoEmptyLoop(g, t) <==> forall place :: !IsEmptyLoop(g, At(t, place))
  {
    if !NoEmptyLoop(g, t) { var place := PlaceOfEmptyLoop(g, t); }
    forall place | IsEmptyLoop(g, At(t, place)) ensures !NoEmptyLoop(g, t) { EmptyLoopInPlace(g, t, place); }
  }

  lemma {:induction false} PlaceOfEmptyLoop(g: Grammar, t: Tree) returns (place: Place)
    requires !NoEmptyLoop(g, t)
    ensures IsEmptyLoop(g, At(t, place))
  {
    hide CanBeEmpty;
    if t.TRep? && CanBeEmpty(g, t.p) {
      place := [];
    } else {
      var second := (t.TSeq? || t.TChoice?) && NoEmptyLoop(g, t.p1);
      var rest := PlaceOfEmptyLoop(g, Child(t, second).value);
      place := [second] + rest;
    }
  }

  lemma {:induction false} EmptyLoopInPlace(g: Grammar, t: Tree, place: Place)
    requires IsEmptyLoop(g, At(t, place))
    ensures !NoEmptyLoop(g, t)
    decreases |place|
  {
    hide CanBeEmpty;
    if place != [] { EmptyLoopInPlace(g, Child(t, place[0]).value, place[1..]); }
  }
}
