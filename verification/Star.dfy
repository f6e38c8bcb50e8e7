module Star {
  /** Repetition of a pattern: `p^n`, at least `n` times, and `p^-n`, at most `n` times. */

  import opened Peg
  import opened Analysis
  import opened CodeGen
  import opened VerifyGrammar
  import opened Termination
  import opened Emptiness
  import opened FlatTree
  import opened TreeMeaning

  /** `n` copies and then any number of them. */
  function AtLeast(t: Tree, n: nat): Tree
    decreases n
  {
    if n == 0 then TRep(t) else TSeq(t, AtLeast(t, n - 1))
  }

  /** At most `n` copies. */
  function AtMost(t: Tree, n: nat): Tree
    requires n > 0
    decreases n
  {
    if n == 1 then TChoice(t, TTrue) else TChoice(TSeq(t, AtMost(t, n - 1)), TTrue)
  }

  // ----- meaning

  /** `k` matches of `t` in a row lead from `i` to `j`. */
  ghost predicate Reps(g: Grammar, t: Tree, s: Subject, i: nat, k: nat, j: nat)
    requires i <= |s|
    decreases k
  {
    if k == 0 then i == j
    else exists m: nat :: m <= |s| && Means(g, t, s, i, Ok(m)) && Reps(g, t, s, m, k - 1, j)
  }

  /** `t` matches exactly `k` times from `i`, up to `j`. */
  ghost predicate Exactly(g: Grammar, t: Tree, s: Subject, i: nat, k: nat, j: nat)
    requires i <= |s|
  {
    j <= |s| && Reps(g, t, s, i, k, j) && Means(g, t, s, j, Fail)
  }

  lemma OneMore(g: Grammar, t: Tree, s: Subject, i: nat, m: nat, k: nat, j: nat)
    requires i <= |s| && m <= |s| && Means(g, t, s, i, Ok(m))
    ensures Reps(g, t, s, m, k, j) ==> Reps(g, t, s, i, k + 1, j)
    ensures Exactly(g, t, s, m, k, j) ==> Exactly(g, t, s, i, k + 1, j)
  {
    if Reps(g, t, s, m, k, j) { assert Reps(g, t, s, m, (k + 1) - 1, j); }
  }

  /** How a match of a repetition came about. */
  lemma {:induction false} RepCount(g: Grammar, t: Tree, s: Subject, i: nat, n: nat) returns (k: nat)
    requires i <= |s| && Eval(g, TRep(t), s, i, n).Ok?
    ensures Exactly(g, t, s, i, k, Eval(g, TRep(t), s, i, n).pos)
    decreases n
  {
    var r := Eval(g, t, s, i, n - 1);
    assert Means(g, t, s, i, r);
    if r.Fail? {
      k := 0;
    } else {
      k := RepCount(g, t, s, r.pos, n - 1);
      OneMore(g, t, s, i, r.pos, k, Eval(g, TRep(t), s, i, n).pos);
      k := k + 1;
    }
  }

  lemma {:induction false} RepFromCount(g: Grammar, t: Tree, s: Subject, i: nat, k: nat, j: nat)
    requires i <= |s| && Exactly(g, t, s, i, k, j)
    ensures Means(g, TRep(t), s, i, Ok(j))
    decreases k
  {
    hide Means;
    if k == 0 {
      RepMeans(g, t, s, i, Fail, Ok(j));
    } else {
      var m: nat :| m <= |s| && Means(g, t, s, i, Ok(m)) && Reps(g, t, s, m, k - 1, j);
      RepFromCount(g, t, s, m, k - 1, j);
      RepMeans(g, t, s, i, Ok(m), Ok(j));
    }
  }

  /** How an outcome of `AtLeast` came about. */
  lemma {:induction false} AtLeastCount(g: Grammar, t: Tree, n: nat, s: Subject, i: nat, f: nat)
      returns (k: nat, j: nat)
    requires i <= |s| && !Eval(g, AtLeast(t, n), s, i, f).OutOfFuel?
    ensures Exactly(g, t, s, i, k, j)
    ensures Eval(g, AtLeast(t, n), s, i, f) == if k < n then Fail else Ok(j)
    decreases n
  {
    if n == 0 {
      RepNeverFails(g, t, s, i, f);
      k := RepCount(g, t, s, i, f);
      j := Eval(g, TRep(t), s, i, f).pos;
    } else {
      var r := Eval(g, t, s, i, f - 1);
      assert Means(g, t, s, i, r);
      if r.Fail? {
        k, j := 0, i;
      } else {
        k, j := AtLeastCount(g, t, n - 1, s, r.pos, f - 1);
        OneMore(g, t, s, i, r.pos, k, j);
        k := k + 1;
      }
    }
  }

  lemma {:induction false} RepNeverFails(g: Grammar, t: Tree, s: Subject, i: nat, f: nat)
    requires i <= |s|
    ensures !Eval(g, TRep(t), s, i, f).Fail?
    decreases f
  {
    if f > 0 {
      var r := Eval(g, t, s, i, f - 1);
      if r.Ok? { RepNeverFails(g, t, s, r.pos, f - 1); }
    }
  }

  lemma {:induction false} AtLeastFromCount(g: Grammar, t: Tree, n: nat, s: Subject, i: nat, k: nat, j: nat)
    requires i <= |s| && Exactly(g, t, s, i, k, j)
    ensures Means(g, AtLeast(t, n), s, i, if k < n then Fail else Ok(j))
    decreases n
  {
    hide Means;
    if n == 0 {
      RepFromCount(g, t, s, i, k, j);
    } else if k == 0 {
      SeqMeans(g, t, AtLeast(t, n - 1), s, i, Fail, Fail);
    } else {
      var m: nat :| m <= |s| && Means(g, t, s, i, Ok(m)) && Reps(g, t, s, m, k - 1, j);
      AtLeastFromCount(g, t, n - 1, s, m, k - 1, j);
      SeqMeans(g, t, AtLeast(t, n - 1), s, i, Ok(m), if k < n then Fail else Ok(j));
    }
  }

  /** `p^n` matches as often as it can: it succeeds after all these matches if they are at least `n`,
      and fails if they are fewer. */
  lemma AtLeastMeans(g: Grammar, t: Tree, n: nat, s: Subject, i: nat, r: Outcome)
    requires i <= |s|
    ensures Means(g, AtLeast(t, n), s, i, r) <==>
            exists k: nat, j: nat :: Exactly(g, t, s, i, k, j) && r == if k < n then Fail else Ok(j)
  {
    if Means(g, AtLeast(t, n), s, i, r) {
      var f: nat :| Eval(g, AtLeast(t, n), s, i, f) == r;
      var k, j := AtLeastCount(g, t, n, s, i, f);
    }
    if k: nat, j: nat :| Exactly(g, t, s, i, k, j) && r == if k < n then Fail else Ok(j) {
      AtLeastFromCount(g, t, n, s, i, k, j);
    }
  }

  /** `k` matches from `i` to `j`, at most `n`, and fewer only if there are no more. */
  ghost predicate UpTo(g: Grammar, t: Tree, s: Subject, i: nat, n: nat, k: nat, j: nat)
    requires i <= |s|
  {
    j <= |s| && k <= n && Reps(g, t, s, i, k, j) && (k < n ==> Means(g, t, s, j, Fail))
  }

  lemma {:induction false} AtMostCount(g: Grammar, t: Tree, n: nat, s: Subject, i: nat, f: nat) returns (k: nat, j: nat)
    requires i <= |s| && n > 0 && !Eval(g, AtMost(t, n), s, i, f).OutOfFuel?
    ensures UpTo(g, t, s, i, n, k, j) && Eval(g, AtMost(t, n), s, i, f) == Ok(j)
    decreases n
  {
    if n == 1 {
      var r := Eval(g, t, s, i, f - 1);
      assert Means(g, t, s, i, r);
      if r.Fail? {
        k, j := 0, i;
      } else {
        k, j := 1, r.pos;
        assert Reps(g, t, s, r.pos, 0, r.pos);
        OneMore(g, t, s, i, r.pos, 0, r.pos);
      }
    } else {
      var both := Eval(g, TSeq(t, AtMost(t, n - 1)), s, i, f - 1);
      var r := Eval(g, t, s, i, f - 2);
      assert Means(g, t, s, i, r);
      if r.Fail? {
        k, j := 0, i;
      } else {
        k, j := AtMostCount(g, t, n - 1, s, r.pos, f - 2);
        OneMore(g, t, s, i, r.pos, k, j);
        k := k + 1;
      }
    }
  }

  lemma {:induction false} AtMostFromCount(g: Grammar, t: Tree, n: nat, s: Subject, i: nat, k: nat, j: nat)
    requires i <= |s| && n > 0 && UpTo(g, t, s, i, n, k, j)
    ensures Means(g, AtMost(t, n), s, i, Ok(j))
    decreases n
  {
    hide Means;
    if k == 0 {
      TrueMeans(g, s, i);
      if n == 1 {
        ChoiceMeans(g, t, TTrue, s, i, Fail, Ok(i));
      } else {
        SeqMeans(g, t, AtMost(t, n - 1), s, i, Fail, Fail);
        ChoiceMeans(g, TSeq(t, AtMost(t, n - 1)), TTrue, s, i, Fail, Ok(i));
      }
    } else {
      var m: nat :| m <= |s| && Means(g, t, s, i, Ok(m)) && Reps(g, t, s, m, k - 1, j);
      if n == 1 {
        ChoiceMeans(g, t, TTrue, s, i, Ok(m), Ok(m));
      } else {
        AtMostFromCount(g, t, n - 1, s, m, k - 1, j);
        SeqMeans(g, t, AtMost(t, n - 1), s, i, Ok(m), Ok(j));
        ChoiceMeans(g, TSeq(t, AtMost(t, n - 1)), TTrue, s, i, Ok(j), Ok(j));
      }
    }
  }

  lemma TrueMeans(g: Grammar, s: Subject, i: nat)
    requires i <= |s|
    ensures Means(g, TTrue, s, i, Ok(i))
  {
    assert Eval(g, TTrue, s, i, 1) == Ok(i);
  }

  /** `p^-n` matches as often as it can but at most `n` times, and never fails. */
  lemma AtMostMeans(g: Grammar, t: Tree, n: nat, s: Subject, i: nat, r: Outcome)
    requires i <= |s| && n > 0
    ensures Means(g, AtMost(t, n), s, i, r) <==>
            exists k: nat, j: nat :: UpTo(g, t, s, i, n, k, j) && r == Ok(j)
  {
    if Means(g, AtMost(t, n), s, i, r) {
      var f: nat :| Eval(g, AtMost(t, n), s, i, f) == r;
      var k, j := AtMostCount(g, t, n, s, i, f);
    }
    if k: nat, j: nat :| UpTo(g, t, s, i, n, k, j) && r == Ok(j) {
      AtMostFromCount(g, t, n, s, i, k, j);
    }
  }

  // ----- building the trees

  lemma {:induction false} AtLeastSlots(t: Tree, n: nat)
    ensures Slots(AtLeast(t, n)) == (n + 1) * (Slots(t) + 1)
    decreases n
  {
    hide Flatten;
    if n == 0 { RepLayout(t); } else { AtLeastSlots(t, n - 1); OpLayout(TSeq(t, t), t, AtLeast(t, n - 1)); }
  }

  lemma RepLayout(t: Tree)
    ensures Flatten(TRep(t)) == [NRep] + Flatten(t)
  {
  }

  lemma TrueLayout()
    ensures Flatten(TTrue) == [NTrue]
  {
  }

  /** Offset of the second child of a choice among at most `n` copies. */
  function ChoiceOffset(n: nat, size1: nat): nat
    requires n > 0
  {
    MulAtLeast3(n, size1);
    n * (size1 + 3) - 2
  }

  lemma MulAtLeast3(n: nat, size1: nat)
    requires n > 0
    ensures n * (size1 + 3) >= 3
  {
    assert n * (size1 + 3) == (n - 1) * (size1 + 3) + size1 + 3;
  }

  lemma {:induction false} AtMostSlots(t: Tree, n: nat)
    requires n > 0
    ensures Slots(AtMost(t, n)) == n * (Slots(t) + 3) - 1 == ChoiceOffset(n, Slots(t)) + 1
    decreases n
  {
    hide Flatten;
    TrueLayout();
    var like := TChoice(t, t);
    if n == 1 {
      OpLayout(like, t, TTrue);
    } else {
      AtMostSlots(t, n - 1);
      OpLayout(TSeq(t, t), t, AtMost(t, n - 1));
      OpLayout(like, TSeq(t, AtMost(t, n - 1)), TTrue);
    }
  }

  lemma AtMostSize(t: Tree, n: nat)
    requires n > 0
    ensures Slots(AtMost(t, n)) == ChoiceOffset(n, Slots(t)) + 1
  {
    AtMostSlots(t, n);
  }

  method CopyInto(a: array<Node>, at: nat, x: seq<Node>)
    requires at + |x| <= a.Length
    modifies a
    ensures a[..at] == old(a[..at]) && a[at..at + |x|] == x && a[at + |x|..] == old(a[at + |x|..])
  {
    var k := 0;
    while k < |x|
      invariant k <= |x|
      invariant forall i :: 0 <= i < a.Length ==> a[i] == if at <= i < at + k then x[i - at] else old(a[i])
    {
      a[at + k] := x[k];
      k := k + 1;
    }
  }

  /** Puts a sequence node and its first child at `at`; the second child comes after them. */
  method SeqAux(a: array<Node>, at: nat, sib: seq<Node>) returns (second: nat)
    requires at + 1 + |sib| <= a.Length
    modifies a
    ensures second == at + 1 + |sib|
    ensures a[..second] == old(a[..at]) + [NSeq(1 + |sib|)] + sib && a[second..] == old(a[second..])
  {
    PutNode(a, at, NSeq(1 + |sib|), sib);
    second := at + 1 + |sib|;
  }

  method BuildAtLeast(tree1: seq<Node>, n: nat, ghost t: Tree) returns (a: array<Node>)
    requires tree1 == Flatten(t)
    ensures fresh(a) && a[..] == Flatten(AtLeast(t, n))
  {
    hide Flatten;
    AtLeastSlots(t, n);
    a := new Node[(n + 1) * (|tree1| + 1)](_ => Blank);
    var at: nat, left: nat := 0, n;
    while left > 0
      invariant left <= n && at + Slots(AtLeast(t, left)) == a.Length
      invariant Flatten(AtLeast(t, n)) == a[..at] + Flatten(AtLeast(t, left))
      decreases left
    {
      OpLayout(TSeq(t, t), t, AtLeast(t, left - 1));
      left := left - 1;
      at := SeqAux(a, at, tree1);
    }
    RepLayout(t);
    ghost var pre := a[..at];
    PutNode(a, at, NRep, tree1);
    assert a[..] == a[..at + 1 + |tree1|];
    assert pre + [NRep] + tree1 == pre + ([NRep] + tree1);
  }

  /** Puts a node and its only child at `at`. */
  method PutNode(a: array<Node>, at: nat, node: Node, sib: seq<Node>)
    requires at + 1 + |sib| <= a.Length
    modifies a
    ensures a[..at + 1 + |sib|] == old(a[..at]) + [node] + sib && a[at + 1 + |sib|..] == old(a[at + 1 + |sib|..])
  {
    a[at] := node;
    ghost var before := a[..];
    CopyInto(a, at + 1, sib);
    Prefix(a[..], at + 1, at + 1 + |sib|);
    Prefix(before, at, at + 1);
    assert before[..at] == old(a[..at]) && before[at..at + 1] == [node];
  }

  lemma Prefix(a: seq<Node>, i: nat, j: nat)
    requires i <= j <= |a|
    ensures a[..j] == a[..i] + a[i..j]
    ensures j == |a| ==> a == a[..j]
  {
  }

  method BuildAtMost(tree1: seq<Node>, n: nat, ghost t: Tree) returns (a: array<Node>)
    requires tree1 == Flatten(t) && n > 0
    ensures fresh(a) && a[..] == Flatten(AtMost(t, n))
  {
    hide Flatten, AtMost, ChoiceOffset, Around;
    AtMostSize(t, n);
    a := new Node[ChoiceOffset(n, |tree1|) + 1](_ => Blank);
    var at: nat, left: nat := 0, n;
    NothingAround(a[..], t, n);
    while left > 1
      invariant 0 < left <= n && Around(a[..], at, t, left, Flatten(AtMost(t, n)))
      decreases left
    {
      at := AddCopy(a, at, left, tree1, t, Flatten(AtMost(t, n)));
      left := left - 1;
    }
    AddLastCopy(a, at, tree1, t, Flatten(AtMost(t, n)));
  }

  /** `a` is `whole` but for the slots from `at` on that the choice among at most `n` copies needs. */
  ghost predicate Around(a: seq<Node>, at: nat, t: Tree, n: nat, whole: seq<Node>)
    requires n > 0
  {
    var end := at + Slots(AtMost(t, n));
    end <= |a| && whole == a[..at] + Flatten(AtMost(t, n)) + a[end..]
  }

  lemma NothingAround(a: seq<Node>, t: Tree, n: nat)
    requires n > 0 && |a| == Slots(AtMost(t, n))
    ensures Around(a, 0, t, n, Flatten(AtMost(t, n)))
  {
    hide Flatten, AtMost;
  }

  method AddCopy(a: array<Node>, at: nat, left: nat, tree1: seq<Node>, ghost t: Tree, ghost whole: seq<Node>)
      returns (next: nat)
    requires left > 1 && tree1 == Flatten(t) && Around(a[..], at, t, left, whole)
    modifies a
    ensures Around(a[..], next, t, left - 1, whole)
  {
    hide Flatten, AtMost, ChoiceOffset;
    ghost var pre, suf := a[..at], a[at + Slots(AtMost(t, left))..];
    StepAtMost(pre, suf, t, left);
    next := OpenChoice(a, at, ChoiceOffset(left, |tree1|), tree1);
  }

  method AddLastCopy(a: array<Node>, at: nat, tree1: seq<Node>, ghost t: Tree, ghost whole: seq<Node>)
    requires tree1 == Flatten(t) && Around(a[..], at, t, 1, whole)
    modifies a
    ensures a[..] == whole
  {
    hide Flatten, AtMost;
    OneLayout(t);
    LastChoice(a, at, tree1);
  }

  /** What one turn of the loop puts before and after the rest. */
  lemma StepAtMost(pre: seq<Node>, suf: seq<Node>, t: Tree, n: nat)
    requires n > 1
    ensures Slots(AtMost(t, n)) == 3 + Slots(t) + Slots(AtMost(t, n - 1)) == ChoiceOffset(n, Slots(t)) + 1
    ensures pre + Flatten(AtMost(t, n)) + suf
         == (pre + [NChoice(ChoiceOffset(n, Slots(t))), NSeq(1 + Slots(t))] + Flatten(t))
            + Flatten(AtMost(t, n - 1)) + ([NTrue] + suf)
  {
    hide Flatten, AtMost, ChoiceOffset;
    AtMostLayout(t, n);
    AtMostSize(t, n);
  }

  /** Puts a choice at `at` whose second child, at its end, is `TTrue`, and a sequence with its first
      child; the second child of the sequence comes after them. */
  method OpenChoice(a: array<Node>, at: nat, ps: nat, sib: seq<Node>) returns (second: nat)
    requires at + ps < a.Length && 2 + |sib| <= ps
    modifies a
    ensures second == at + 2 + |sib|
    ensures a[..second] == old(a[..at]) + [NChoice(ps), NSeq(1 + |sib|)] + sib
    ensures a[at + ps..] == [NTrue] + old(a[at + ps + 1..])
  {
    a[at] := NChoice(ps);
    a[at + ps] := NTrue;
    ghost var before := a[..];
    second := SeqAux(a, at + 1, sib);
    assert a[at + ps..] == a[second..][at + ps - second..] == before[at + ps..];
    assert before[..at + 1] == old(a[..at]) + [NChoice(ps)];
  }

  /** The last choice has no sequence. */
  method LastChoice(a: array<Node>, at: nat, sib: seq<Node>)
    requires at + 1 + |sib| < a.Length
    modifies a
    ensures a[..] == old(a[..at]) + ([NChoice(1 + |sib|)] + sib + [NTrue]) + old(a[at + 2 + |sib|..])
  {
    var end := at + 1 + |sib|;
    a[end] := NTrue;
    ghost var before := a[..];
    PutNode(a, at, NChoice(1 + |sib|), sib);
    assert a[..] == a[..end] + a[end..];
    assert before[end..] == [NTrue] + old(a[end + 1..]);
  }

  lemma OneLayout(t: Tree)
    ensures Flatten(AtMost(t, 1)) == [NChoice(1 + Slots(t))] + Flatten(t) + [NTrue]
            && Slots(AtMost(t, 1)) == 2 + Slots(t)
  {
    AtMostLayout(t, 1);
  }

  /** A choice between the sequence of `t` and the rest, and nothing. */
  lemma AtMostLayout(t: Tree, n: nat)
    requires n > 0
    ensures n == 1 ==> Flatten(AtMost(t, 1)) == [NChoice(1 + Slots(t))] + Flatten(t) + [NTrue]
    ensures n > 1 ==>
              && Flatten(AtMost(t, n))
              == [NChoice(Slots(AtMost(t, n)) - 1), NSeq(1 + Slots(t))]
                   + Flatten(t) + Flatten(AtMost(t, n - 1)) + [NTrue]
  {
    hide Flatten;
    TrueLayout();
    var like := TChoice(t, t);
    if n == 1 {
      OpLayout(like, t, TTrue);
    } else {
      OpLayout(TSeq(t, t), t, AtMost(t, n - 1));
      OpLayout(like, TSeq(t, AtMost(t, n - 1)), TTrue);
    }
  }

  function StarTree(t: Tree, n: int): Tree { if n >= 0 then AtLeast(t, n) else AtMost(t, -n) }

  lemma {:induction false} AtLeastKeeps(g: Grammar, t: Tree, n: nat)
    requires WellFormed(g, t, true) && NoEmptyLoop(g, t) && !CanBeEmpty(g, t)
    ensures WellFormed(g, AtLeast(t, n), true) && NoEmptyLoop(g, AtLeast(t, n))
    decreases n
  {
    hide CanBeEmpty;
    if n > 0 { AtLeastKeeps(g, t, n - 1); }
  }

  lemma {:induction false} AtMostKeeps(g: Grammar, t: Tree, n: nat)
    requires n > 0 && WellFormed(g, t, true) && NoEmptyLoop(g, t)
    ensures WellFormed(g, AtMost(t, n), true) && NoEmptyLoop(g, AtMost(t, n))
    decreases n
  {
    if n > 1 { AtMostKeeps(g, t, n - 1); }
  }

  /** With its predicates and look-behinds taken to succeed, the pattern matches the empty subject. */
  ghost predicate EmptyWithoutPredicates(g: Grammar, t: Tree) {
    Means(StrippedAll(g, PEnullable), Stripped(t, PEnullable), [], 0, Ok(0))
  }

  /** The loop body that is refused is the one that can match the empty string, and the repetition of
      any other accepted pattern is accepted. */
  lemma StarAccepted(g: Grammar, t: Tree, n: int)
    requires AcceptedPattern(g, t) && |g| <= MAXRULES
    ensures Nullable(g, t, DEPTH) <==> CanBeEmpty(g, t)
    ensures Nullable(g, t, DEPTH) <==> EmptyWithoutPredicates(g, t)
    ensures n < 0 || !Nullable(g, t, DEPTH) ==> AcceptedPattern(g, StarTree(t, n))
  {
    hide CanBeEmpty, WellFormed, NoEmptyLoop;
    NullableMeans(g, t);
    if g == [] { EmptyGrammarAccepted(); }
    NullableExact(g, t, true);
    if n < 0 {
      AtMostKeeps(g, t, -n);
    } else if !Nullable(g, t, DEPTH) {
      AtLeastKeeps(g, t, n);
    }
  }

  /** `p^n` for a pattern over grammar `g`: the tree fills its array.  A loop body that may match the
      empty string is an error. */
  method LpStar(g: Grammar, t: Tree, n: int) returns (r: Option<array<Node>>)
    ensures r.None? <==> n >= 0 && Nullable(g, t, DEPTH)
    ensures r.Some? ==> fresh(r.value) && r.value[..] == Flatten(StarTree(t, n))
    ensures AcceptedPattern(g, t) && |g| <= MAXRULES ==>
              && (r.None? <==> n >= 0 && CanBeEmpty(g, t))
              && (r.None? <==> n >= 0 && EmptyWithoutPredicates(g, t))
              && (r.Some? ==> AcceptedPattern(g, StarTree(t, n)))
  {
    hide AcceptedPattern, CanBeEmpty, Flatten, EmptyWithoutPredicates;
    var tree1 := Flatten(t);
    ghost var accepted := AcceptedPattern(g, t) && |g| <= MAXRULES;
    if accepted { StarAccepted(g, t, n); }
    if n >= 0 {
      if Nullable(g, t, DEPTH) { return None; }
      var a := BuildAtLeast(tree1, n, t);
      r := Some(a);
    } else {
      var a := BuildAtMost(tree1, -n, t);
      r := Some(a);
    }
  }

  // ----- strings and numbers as patterns

  /** A sequence of one-slot patterns, the last one without a sequence node. */
  function SeqOf(leaves: seq<Tree>): Tree
    requires leaves != []
  {
    if |leaves| == 1 then leaves[0] else TSeq(leaves[0], SeqOf(leaves[1..]))
  }

  predicate OneSlot(t: Tree) { t.TChar? || t.TAny? }

  predicate Accepts(t: Tree, c: Byte)
    requires OneSlot(t)
  {
    t.TChar? ==> t.c == c
  }

  /** The next characters of the subject are those of the leaves. */
  predicate Spells(leaves: seq<Tree>, s: Subject, i: nat)
    requires forall k :: 0 <= k < |leaves| ==> OneSlot(leaves[k])
  {
    i + |leaves| <= |s| && forall k :: 0 <= k < |leaves| ==> Accepts(leaves[k], s[i + k])
  }

  /** A sequence of single characters matches exactly where the subject spells them. */
  lemma {:induction false} SeqOfMeans(g: Grammar, leaves: seq<Tree>, s: Subject, i: nat)
    requires i <= |s| && leaves != [] && forall k :: 0 <= k < |leaves| ==> OneSlot(leaves[k])
    ensures Means(g, SeqOf(leaves), s, i, if Spells(leaves, s, i) then Ok(i + |leaves|) else Fail)
    decreases |leaves|
  {
    hide Means;
    var t, rest := leaves[0], leaves[1..];
    var fits := i < |s| && Accepts(t, s[i]);
    LeafOutcome(g, t, s, i);
    if rest == [] {
      assert Spells(leaves, s, i) == fits;
    } else {
      if fits {
        SeqOfMeans(g, rest, s, i + 1);
        SpellsRest(leaves, s, i);
      }
      SeqMeans(g, t, SeqOf(rest), s, i, if fits then Ok(i + 1) else Fail,
        if Spells(leaves, s, i) then Ok(i + |leaves|) else Fail);
    }
  }

  lemma SpellsRest(leaves: seq<Tree>, s: Subject, i: nat)
    requires leaves != [] && i < |s| && forall k :: 0 <= k < |leaves| ==> OneSlot(leaves[k])
    ensures Spells(leaves, s, i) <==> Accepts(leaves[0], s[i]) && Spells(leaves[1..], s, i + 1)
  {
    if Accepts(leaves[0], s[i]) && Spells(leaves[1..], s, i + 1) {
      forall k | 0 <= k < |leaves| ensures Accepts(leaves[k], s[i + k]) {
        if k > 0 { assert Accepts(leaves[1..][k - 1], s[i + 1 + (k - 1)]); }
      }
    }
    if Spells(leaves, s, i) {
      forall k | 0 <= k < |leaves[1..]| ensures Accepts(leaves[1..][k], s[i + 1 + k]) {
        assert Accepts(leaves[k + 1], s[i + (k + 1)]);
      }
    }
  }

  lemma LeafOutcome(g: Grammar, t: Tree, s: Subject, i: nat)
    requires i <= |s| && OneSlot(t)
    ensures Means(g, t, s, i, if i < |s| && Accepts(t, s[i]) then Ok(i + 1) else Fail)
  {
    assert Eval(g, t, s, i, 1) == if i < |s| && Accepts(t, s[i]) then Ok(i + 1) else Fail;
  }

  /** Fills a tree from `at` on with the sequence of the leaves. */
  method FillSeq(a: array<Node>, at: nat, leaves: seq<Tree>)
    requires leaves != [] && forall k :: 0 <= k < |leaves| ==> OneSlot(leaves[k])
    requires at + 2 * |leaves| - 1 <= a.Length
    modifies a
    ensures Slots(SeqOf(leaves)) == 2 * |leaves| - 1 && Laid(a[..], at, SeqOf(leaves))
    ensures forall k :: 0 <= k < at || at + 2 * |leaves| - 1 <= k < a.Length ==> a[k] == old(a[k])
  {
    hide Flatten, SeqOf;
    var i := 0;
    while i < |leaves| - 1
      invariant i < |leaves|
      invariant forall k :: 0 <= k < i ==> a[at + 2 * k] == NSeq(2) && [a[at + 2 * k + 1]] == Flatten(leaves[k])
      invariant forall k :: 0 <= k < at || at + 2 * i <= k < a.Length ==> a[k] == old(a[k])
    {
      OneSlotLayout(leaves[i]);
      a[at + 2 * i] := NSeq(2);
      a[at + 2 * i + 1] := LeafNode(leaves[i]);
      i := i + 1;
    }
    OneSlotLayout(leaves[i]);
    a[at + 2 * i] := LeafNode(leaves[i]);
    SeqLaid(a[..], at, leaves);
  }

  function LeafNode(t: Tree): Node
    requires OneSlot(t)
  {
    if t.TChar? then NChar(t.c) else NAny
  }

  lemma OneSlotLayout(t: Tree)
    requires OneSlot(t)
    ensures Flatten(t) == [LeafNode(t)]
  {
  }

  lemma {:induction false} SeqLaid(a: seq<Node>, at: nat, leaves: seq<Tree>)
    requires leaves != [] && forall k :: 0 <= k < |leaves| ==> OneSlot(leaves[k])
    requires at + 2 * |leaves| - 1 <= |a|
    requires forall k :: 0 <= k < |leaves| - 1 ==> a[at + 2 * k] == NSeq(2) && [a[at + 2 * k + 1]] == Flatten(leaves[k])
    requires [a[at + 2 * (|leaves| - 1)]] == Flatten(leaves[|leaves| - 1])
    ensures Slots(SeqOf(leaves)) == 2 * |leaves| - 1 && Laid(a, at, SeqOf(leaves))
    decreases |leaves|
  {
    hide Flatten;
    var t, rest := leaves[0], leaves[1..];
    OneSlotLayout(t);
    if rest == [] {
      assert a[at..at + 1] == [a[at]];
    } else {
      forall k | 0 <= k < |rest| - 1
        ensures a[at + 2 + 2 * k] == NSeq(2) && [a[at + 2 + 2 * k + 1]] == Flatten(rest[k])
      {
        assert a[at + 2 * (k + 1)] == NSeq(2);
      }
      SeqLaid(a, at + 2, rest);
      assert a[at] == a[at + 2 * 0] == OpNode(TSeq(t, t), 2);
      assert a[at + 1..at + 2] == [a[at + 2 * 0 + 1]] == Flatten(t);
      LaidJoin(a, at, TSeq(t, t), t, SeqOf(rest));
      OpLayout(TSeq(t, t), t, SeqOf(rest));
    }
  }

  /** The number `n` as a pattern: nothing, `n` characters, or not `-n` characters. */
  function NumPattern(n: int): Tree {
    if n == 0 then TTrue
    else if n > 0 then SeqOf(Anys(n))
    else TNot(SeqOf(Anys(-n)))
  }

  function Anys(n: nat): (leaves: seq<Tree>)
    ensures |leaves| == n && forall k :: 0 <= k < n ==> leaves[k] == TAny
  {
    seq(n, _ => TAny)
  }

  /** A number matches `n` characters; a negative one matches where there are fewer than `-n` left. */
  lemma NumMeans(g: Grammar, n: int, s: Subject, i: nat)
    requires i <= |s|
    ensures Means(g, NumPattern(n), s, i,
              if n >= 0 then (if i + n <= |s| then Ok(i + n) else Fail)
              else if |s| - i < -n then Ok(i) else Fail)
  {
    hide Means;
    if n == 0 {
      TrueMeans(g, s, i);
    } else {
      var leaves := Anys(if n > 0 then n else -n);
      SeqOfMeans(g, leaves, s, i);
      assert Spells(leaves, s, i) <==> i + |leaves| <= |s| by {
        assert forall k :: 0 <= k < |leaves| ==> leaves[k] == TAny;
      }
      if n < 0 {
        TestMeans(g, TNot(SeqOf(leaves)), s, i, if Spells(leaves, s, i) then Ok(i + |leaves|) else Fail);
      }
    }
  }

  method NumTree(n: int) returns (a: array<Node>)
    ensures fresh(a) && a[..] == Flatten(NumPattern(n))
  {
    hide Flatten, SeqOf;
    if n == 0 {
      TrueLayout();
      a := new Node[1](_ => NTrue);
      return;
    }
    var m := if n > 0 then n else -n;
    var first := if n > 0 then 0 else 1;
    var leaves := Anys(m);
    a := new Node[first + 2 * m - 1](_ => Blank);
    if n < 0 { a[0] := NNot; }
    FillSeq(a, first, leaves);
    assert a[first..a.Length] == Flatten(SeqOf(leaves));
    if n < 0 {
      NotLayout(SeqOf(leaves));
      assert a[..] == [a[0]] + a[1..a.Length];
    } else {
      assert a[..] == a[0..a.Length];
    }
  }

  lemma NotLayout(t: Tree)
    ensures Flatten(TNot(t)) == [NNot] + Flatten(t)
  {
  }
}
