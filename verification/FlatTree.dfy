module FlatTree {
  /**
   Trees in their flat layout: a node, then its first child, then its second child, which the node
   finds by an offset.  Repetitions are built, and associative operators made right associative, in
   such arrays.
   */

  import opened Peg

  /** Slots that hold the bytes of a character set after its node. */
  const SETSLOTS := 4

  datatype Node =
    | Blank
    | NChar(c: Byte)
    | NSet(cs: Charset)
    | SetBytes
    | NAny
    | NTrue
    | NFalse
    | NRep
    | NSeq(ps: nat)
    | NChoice(ps: nat)
    | NNot
    | NAnd
    | NBehind(n: nat)
    | NCall(rule: nat)
    | NGrammar

  function Flatten(t: Tree): (f: seq<Node>)
    ensures |f| > 0
  {
    match t
    case TChar(c) => [NChar(c)]
    case TSet(cs) => [NSet(cs)] + seq(SETSLOTS, _ => SetBytes)
    case TAny => [NAny]
    case TTrue => [NTrue]
    case TFalse => [NFalse]
    case TRep(p) => [NRep] + Flatten(p)
    case TSeq(p1, p2) => [NSeq(1 + |Flatten(p1)|)] + Flatten(p1) + Flatten(p2)
    case TChoice(p1, p2) => [NChoice(1 + |Flatten(p1)|)] + Flatten(p1) + Flatten(p2)
    case TNot(p) => [NNot] + Flatten(p)
    case TAnd(p) => [NAnd] + Flatten(p)
    case TBehind(n, p) => [NBehind(n)] + Flatten(p)
    case TCall(k) => [NCall(k)]
    case TGrammar => [NGrammar]
  }

  function Slots(t: Tree): nat { |Flatten(t)| }

  // ----- making operators right associative

  predicate SameOp(t: Tree, u: Tree) { (t.TSeq? && u.TSeq?) || (t.TChoice? && u.TChoice?) }

  predicate IsOp(t: Tree) { t.TSeq? || t.TChoice? }

  function Op(like: Tree, p1: Tree, p2: Tree): Tree
    requires IsOp(like)
  {
    if like.TSeq? then TSeq(p1, p2) else TChoice(p1, p2)
  }

  function OpNode(like: Tree, ps: nat): Node
    requires IsOp(like)
  {
    if like.TSeq? then NSeq(ps) else NChoice(ps)
  }

  lemma OpLayout(like: Tree, p1: Tree, p2: Tree)
    requires IsOp(like)
    ensures Flatten(Op(like, p1, p2)) == [OpNode(like, 1 + Slots(p1))] + Flatten(p1) + Flatten(p2)
    ensures Slots(Op(like, p1, p2)) == 1 + Slots(p1) + Slots(p2)
  {
  }

  /** One rotation: (t11 op t12) op t2 becomes t11 op (t12 op t2). */
  function RotateOnce(t: Tree): (r: Tree)
    requires IsOp(t) && SameOp(t.p1, t)
  {
    Op(t, t.p1.p1, Op(t, t.p1.p2, t.p2))
  }

  lemma RotatedLayout(t: Tree)
    requires IsOp(t) && SameOp(t.p1, t)
    ensures var f11, f12, f2 := Flatten(t.p1.p1), Flatten(t.p1.p2), Flatten(t.p2);
            && Flatten(t) == [OpNode(t, 2 + |f11| + |f12|), OpNode(t, 1 + |f11|)] + f11 + (f12 + f2)
            && Flatten(RotateOnce(t)) == [OpNode(t, 1 + |f11|)] + f11 + [OpNode(t, 1 + |f12|)] + (f12 + f2)
    ensures Slots(RotateOnce(t)) == Slots(t)
  {
    hide Flatten;
    OpLayout(t, t.p1, t.p2);
    OpLayout(t, t.p1.p1, t.p1.p2);
    OpLayout(t, t.p1.p2, t.p2);
    OpLayout(t, t.p1.p1, Op(t, t.p1.p2, t.p2));
  }

  /** The tree with its first child of another kind than itself. */
  function Rotate(t: Tree): (r: Tree)
    requires IsOp(t)
    ensures IsOp(r) && SameOp(r, t) && !SameOp(r.p1, r) && Slots(r) == Slots(t)
    decreases t.p1
  {
    if SameOp(t.p1, t) then RotatedLayout(t); Rotate(RotateOnce(t)) else t
  }

  /** The slots from `at` on hold exactly the tree. */
  ghost predicate Laid(a: seq<Node>, at: nat, t: Tree) { at + Slots(t) <= |a| && a[at..at + Slots(t)] == Flatten(t) }

  lemma LaidOp(a: seq<Node>, at: nat, t: Tree)
    requires IsOp(t) && Laid(a, at, t)
    ensures at + Slots(t) <= |a| && Slots(t) == 1 + Slots(t.p1) + Slots(t.p2)
    ensures a[at] == OpNode(t, 1 + Slots(t.p1))
    ensures Laid(a, at + 1, t.p1) && Laid(a, at + 1 + Slots(t.p1), t.p2)
  {
    hide Flatten;
    OpLayout(t, t.p1, t.p2);
    var n1, n := Slots(t.p1), Slots(t);
    var f := Flatten(t);
    assert a[at] == a[at..at + n][0];
    Subslice(a, at, n, 1, 1 + n1);
    Subslice(a, at, n, 1 + n1, n);
    assert f[1..1 + n1] == Flatten(t.p1);
    assert f[1 + n1..n] == Flatten(t.p2);
  }

  lemma Subslice(a: seq<Node>, at: nat, n: nat, i: nat, j: nat)
    requires at + n <= |a| && i <= j <= n
    ensures a[at..at + n][i..j] == a[at + i..at + j]
  {
    var x, y := a[at..at + n][i..j], a[at + i..at + j];
    forall k | 0 <= k < j - i ensures x[k] == y[k] { }
    assert x == y;
  }

  /** The kind of node at the root of a tree. */
  lemma RootNode(t: Tree)
    ensures t.TSeq? <==> Flatten(t)[0].NSeq?
    ensures t.TChoice? <==> Flatten(t)[0].NChoice?
  {
  }

  /** `b` is `a` with `n11` slots moved down over the slot at `at + 1`, and new nodes put before and
      after them. */
  ghost predicate MovedDown(a: seq<Node>, b: seq<Node>, at: nat, n11: nat, first: Node, second: Node) {
    && |a| == |b| && at + 2 + n11 <= |a|
    && (forall k :: 0 <= k < at ==> b[k] == a[k])
    && b[at] == first && b[at + 1 + n11] == second
    && (forall k :: at + 1 <= k < at + 1 + n11 ==> b[k] == a[k + 1])
    && (forall k :: at + 2 + n11 <= k < |a| ==> b[k] == a[k])
  }

  lemma RotateInPlace(a: seq<Node>, b: seq<Node>, at: nat, t: Tree)
    requires IsOp(t) && SameOp(t.p1, t) && Laid(a, at, t)
    requires MovedDown(a, b, at, Slots(t.p1.p1), OpNode(t, 1 + Slots(t.p1.p1)), OpNode(t, 1 + Slots(t.p1.p2)))
    ensures Laid(b, at, RotateOnce(t))
  {
    hide Flatten;
    RotatedLayout(t);
    var f11, rest := Flatten(t.p1.p1), Flatten(t.p1.p2) + Flatten(t.p2);
    var n := Slots(t);
    var f := Flatten(t);
    var g := Flatten(RotateOnce(t));
    forall k | 0 <= k < n ensures b[at + k] == g[k] {
      assert a[at..at + n][k] == f[k];
      if 1 <= k < 1 + |f11| { assert a[at..at + n][k + 1] == f[k + 1]; }
    }
    assert b[at..at + n] == g;
  }

  method MoveDown(a: array<Node>, at: nat, n11: nat, n12: nat, like: Node)
    requires at + 2 + n11 <= a.Length && (like.NSeq? || like.NChoice?)
    modifies a
    ensures MovedDown(old(a[..]), a[..], at, n11, like.(ps := n11 + 1), like.(ps := n12 + 1))
  {
    var k := 0;
    while k < n11
      invariant k <= n11
      invariant forall j :: 0 <= j < a.Length ==> a[j] == if at + 1 <= j < at + 1 + k then old(a[j + 1]) else old(a[j])
    {
      a[at + 1 + k] := a[at + 2 + k];
      k := k + 1;
    }
    a[at] := like.(ps := n11 + 1);
    a[at + 1 + n11] := like.(ps := n12 + 1);
  }

  predicate SameTag(x: Node, y: Node) { (x.NSeq? && y.NSeq?) || (x.NChoice? && y.NChoice?) }

  /** Makes one node right associative, in place; ends because the first child gets smaller. */
  method CorrectAssociativity(a: array<Node>, at: nat, ghost t: Tree)
    requires IsOp(t) && Laid(a[..], at, t)
    modifies a
    ensures Laid(a[..], at, Rotate(t)) && Slots(Rotate(t)) == Slots(t)
    ensures forall k :: 0 <= k < at || at + Slots(t) <= k < a.Length ==> a[k] == old(a[k])
  {
    hide Flatten, Laid;
    ghost var u := t;
    LaidOp(a[..], at, u);
    LaidOp1(a[..], at, u);
    while SameTag(a[at + 1], a[at])
      invariant IsOp(u) && Laid(a[..], at, u) && Rotate(u) == Rotate(t) && Slots(u) == Slots(t)
      invariant at + Slots(t) <= a.Length && Slots(t) >= 3
      invariant SameTag(a[at + 1], a[at]) <==> SameOp(u.p1, u)
      invariant forall k :: 0 <= k < at || at + Slots(t) <= k < a.Length ==> a[k] == old(a[k])
      decreases u.p1
    {
      LaidOp(a[..], at, u);
      LaidOp(a[..], at + 1, u.p1);
      var n1 := a[at].ps - 1;
      var n11 := a[at + 1].ps - 1;
      var n12 := n1 - n11 - 1;
      ghost var before := a[..];
      MoveDown(a, at, n11, n12, a[at]);
      RotateInPlace(before, a[..], at, u);
      RotatedLayout(u);
      u := RotateOnce(u);
      LaidOp(a[..], at, u);
      LaidOp1(a[..], at, u);
    }
  }

  lemma LaidOp1(a: seq<Node>, at: nat, t: Tree)
    requires IsOp(t) && Laid(a, at, t)
    ensures at + 1 < |a| && Slots(t) >= 3 && (SameTag(a[at + 1], a[at]) <==> SameOp(t.p1, t))
  {
    LaidOp(a, at, t);
    RootNode(t.p1);
    assert a[at + 1] == a[at + 1..at + 1 + Slots(t.p1)][0];
  }

  // ----- the whole tree

  predicate IsUnary(t: Tree) { t.TRep? || t.TNot? || t.TAnd? || t.TBehind? }

  function Wrap(like: Tree, p: Tree): Tree
    requires IsUnary(like)
  {
    match like
    case TRep(_) => TRep(p)
    case TNot(_) => TNot(p)
    case TAnd(_) => TAnd(p)
    case TBehind(n, _) => TBehind(n, p)
  }

  /** The tree with all sequences and choices right associative. */
  function Fix(t: Tree): (r: Tree)
    ensures Slots(r) == Slots(t)
    ensures r.TSeq? == t.TSeq? && r.TChoice? == t.TChoice?
    decreases Slots(t), 1
  {
    if IsOp(t) then FixOp(t)
    else if IsUnary(t) then Wrap(t, Fix(t.p))
    else t
  }

  function FixOp(t: Tree): (r: Tree)
    requires IsOp(t)
    ensures Slots(r) == Slots(t) && SameOp(r, t)
    decreases Slots(t), 0
  {
    var u := Rotate(t);
    OpLayout(u, u.p1, u.p2);
    var r := Op(u, Fix(u.p1), Fix(u.p2));
    OpLayout(u, r.p1, r.p2);
    r
  }

  predicate RightAssociative(t: Tree) {
    match t
    case TSeq(p1, p2) => !p1.TSeq? && RightAssociative(p1) && RightAssociative(p2)
    case TChoice(p1, p2) => !p1.TChoice? && RightAssociative(p1) && RightAssociative(p2)
    case TRep(p) => RightAssociative(p)
    case TNot(p) => RightAssociative(p)
    case TAnd(p) => RightAssociative(p)
    case TBehind(_, p) => RightAssociative(p)
    case _ => true
  }

  lemma {:induction false} FixedIsRightAssociative(t: Tree)
    ensures RightAssociative(Fix(t))
    decreases Slots(t)
  {
    if IsOp(t) {
      var u := Rotate(t);
      OpLayout(u, u.p1, u.p2);
      FixedIsRightAssociative(u.p1);
      FixedIsRightAssociative(u.p2);
    } else if IsUnary(t) {
      FixedIsRightAssociative(t.p);
    }
  }

  lemma LaidJoin(a: seq<Node>, at: nat, like: Tree, p1: Tree, p2: Tree)
    requires IsOp(like) && at < |a| && a[at] == OpNode(like, 1 + Slots(p1))
    requires Laid(a, at + 1, p1) && Laid(a, at + 1 + Slots(p1), p2)
    ensures Laid(a, at, Op(like, p1, p2))
  {
    hide Flatten;
    OpLayout(like, p1, p2);
    var n1, n2 := Slots(p1), Slots(p2);
    assert a[at..at + 1 + n1 + n2] == [a[at]] + a[at + 1..at + 1 + n1] + a[at + 1 + n1..at + 1 + n1 + n2];
  }

  lemma LaidSame(a: seq<Node>, b: seq<Node>, at: nat, t: Tree)
    requires |a| == |b| && Laid(a, at, t)
    requires forall k :: at <= k < at + Slots(t) && k < |a| ==> b[k] == a[k]
    ensures Laid(b, at, t)
  {
    hide Flatten;
    assert b[at..at + Slots(t)] == a[at..at + Slots(t)];
  }

  /** Makes all of a tree right associative, in place. */
  method FinalFix(a: array<Node>, at: nat, ghost t: Tree)
    requires Laid(a[..], at, t)
    modifies a
    ensures Laid(a[..], at, Fix(t))
    ensures forall k :: 0 <= k < at || at + Slots(t) <= k < a.Length ==> a[k] == old(a[k])
    decreases Slots(t)
  {
    hide Laid, Flatten, Rotate, Fix;
    FixCases(t);
    RootKind(a[..], at, t);
    ghost var was := a[..];
    match a[at]
    case NSeq(_) => FixOperator(a, at, t);
    case NChoice(_) => FixOperator(a, at, t);
    case NRep =>
      FinalFix(a, at + 1, t.p);
      LaidWrap(was, a[..], at, t, Fix(t.p));
    case NNot =>
      FinalFix(a, at + 1, t.p);
      LaidWrap(was, a[..], at, t, Fix(t.p));
    case NAnd =>
      FinalFix(a, at + 1, t.p);
      LaidWrap(was, a[..], at, t, Fix(t.p));
    case NBehind(_) =>
      FinalFix(a, at + 1, t.p);
      LaidWrap(was, a[..], at, t, Fix(t.p));
    case _ =>
  }

  method FixOperator(a: array<Node>, at: nat, ghost t: Tree)
    requires IsOp(t) && Laid(a[..], at, t)
    modifies a
    ensures Laid(a[..], at, FixOp(t))
    ensures forall k :: 0 <= k < at || at + Slots(t) <= k < a.Length ==> a[k] == old(a[k])
    decreases Slots(t), 0
  {
    hide Laid, Flatten, Rotate, Fix;
    CorrectAssociativity(a, at, t);
    ghost var u := Rotate(t);
    LaidOp(a[..], at, u);
    var ps := a[at].ps;
    ghost var first := a[..];
    FinalFix(a, at + 1, u.p1);
    ghost var second := a[..];
    LaidSame(first, second, at + ps, u.p2);
    FinalFix(a, at + ps, u.p2);
    LaidSame(second, a[..], at + 1, Fix(u.p1));
    LaidJoin(a[..], at, u, Fix(u.p1), Fix(u.p2));
  }

  lemma FixCases(t: Tree)
    ensures IsOp(t) ==> Fix(t) == FixOp(t)
    ensures IsUnary(t) ==> Fix(t) == Wrap(t, Fix(t.p))
    ensures !IsOp(t) && !IsUnary(t) ==> Fix(t) == t
  {
  }

  /** The node at `at` tells the kind of the tree, and where its child is. */
  lemma RootKind(a: seq<Node>, at: nat, t: Tree)
    requires Laid(a, at, t)
    ensures at + Slots(t) <= |a| && Slots(t) > 0
    ensures a[at].NSeq? == t.TSeq? && a[at].NChoice? == t.TChoice?
    ensures a[at].NRep? == t.TRep? && a[at].NNot? == t.TNot? && a[at].NAnd? == t.TAnd? && a[at].NBehind? == t.TBehind?
    ensures IsUnary(t) ==> Laid(a, at + 1, t.p) && Slots(t) == 1 + Slots(t.p)
  {
    assert a[at] == a[at..at + Slots(t)][0];
    if IsUnary(t) {
      Subslice(a, at, Slots(t), 1, Slots(t));
      assert Flatten(t)[1..] == Flatten(t.p);
    }
  }

  lemma LaidWrap(was: seq<Node>, a: seq<Node>, at: nat, t: Tree, p: Tree)
    requires IsUnary(t) && Laid(was, at, t) && |a| == |was| && a[..at + 1] == was[..at + 1] && Laid(a, at + 1, p)
    ensures Laid(a, at, Wrap(t, p))
  {
    var n := Slots(p);
    assert was[at] == was[at..at + Slots(t)][0] == Flatten(t)[0];
    assert a[at] == a[..at + 1][at] == was[..at + 1][at];
    assert a[at..at + 1 + n] == [a[at]] + a[at + 1..at + 1 + n];
  }
}
