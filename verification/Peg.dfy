module Peg {
  /**
   Pattern trees of the PEG library and what they mean.

   A pattern is a main tree over at most one flat grammar: `TGrammar` stands for that grammar (a
   call of its initial rule) and `TCall(k)` for a call of its rule `k`.  Captures are not modelled.
   */

  newtype Byte = x: int | 0 <= x < 256

  type Charset = set<Byte>

  const FULLSET: Charset := set c: Byte | true

  type Subject = seq<Byte>

  datatype Tree =
    | TChar(c: Byte)
    | TSet(cs: Charset)
    | TAny
    | TTrue
    | TFalse
    | TRep(p: Tree)
    | TSeq(p1: Tree, p2: Tree)
    | TChoice(p1: Tree, p2: Tree)
    | TNot(p: Tree)
    | TAnd(p: Tree)
    | TBehind(n: nat, p: Tree)
    | TCall(rule: nat)
    | TGrammar

  type Grammar = seq<Tree>

  datatype Outcome = OutOfFuel | Fail | Ok(pos: nat)

  datatype Option<+T> = None | Some(value: T)

  /** The character class of a one-character pattern. */
  function ToCharset(t: Tree): Option<Charset> {
    match t
    case TChar(c) => Some({c})
    case TSet(cs) => Some(cs)
    case TAny => Some(FULLSET)
    case _ => None
  }

  /** What tree `t` does at position `i` of subject `s`, evaluated to nesting depth `n`. */
  function Eval(g: Grammar, t: Tree, s: Subject, i: nat, n: nat): (r: Outcome)
    requires i <= |s|
    ensures r.Ok? ==> i <= r.pos <= |s|
    ensures n == 0 ==> r.OutOfFuel?
    decreases n
  {
    if n == 0 then OutOfFuel else
    match t
    case TChar(c) => if i < |s| && s[i] == c then Ok(i + 1) else Fail
    case TSet(cs) => if i < |s| && s[i] in cs then Ok(i + 1) else Fail
    case TAny => if i < |s| then Ok(i + 1) else Fail
    case TTrue => Ok(i)
    case TFalse => Fail
    case TRep(p) =>
      (match Eval(g, p, s, i, n - 1)
       case OutOfFuel => OutOfFuel
       case Fail => Ok(i)
       case Ok(k) => Eval(g, t, s, k, n - 1))
    case TSeq(p1, p2) =>
      (match Eval(g, p1, s, i, n - 1)
       case OutOfFuel => OutOfFuel
       case Fail => Fail
       case Ok(k) => Eval(g, p2, s, k, n - 1))
    case TChoice(p1, p2) =>
      var r1 := Eval(g, p1, s, i, n - 1);
      if r1.Fail? then Eval(g, p2, s, i, n - 1) else r1
    case TNot(p) =>
      (match Eval(g, p, s, i, n - 1)
       case OutOfFuel => OutOfFuel
       case Fail => Ok(i)
       case Ok(_) => Fail)
    case TAnd(p) =>
      (match Eval(g, p, s, i, n - 1)
       case OutOfFuel => OutOfFuel
       case Fail => Fail
       case Ok(_) => Ok(i))
    case TBehind(m, p) =>
      if i < m then Fail else
      (match Eval(g, p, s, i - m, n - 1)
       case OutOfFuel => OutOfFuel
       case Fail => Fail
       case Ok(k) => if k == i then Ok(i) else Fail)
    case TCall(k) => if k < |g| then Eval(g, g[k], s, i, n - 1) else Fail
    case TGrammar => if 0 < |g| then Eval(g, g[0], s, i, n - 1) else Fail
  }

  /** More fuel never changes an outcome. */
  lemma {:induction false} FuelIrrelevant(g: Grammar, t: Tree, s: Subject, i: nat, n: nat, m: nat)
    requires i <= |s| && n <= m
    requires !Eval(g, t, s, i, n).OutOfFuel?
    ensures Eval(g, t, s, i, m) == Eval(g, t, s, i, n)
    decreases n, 1
  {
    match t
    case TRep(p) => FuelInRow(g, t, p, t, s, i, n, m);
    case TSeq(p1, p2) => FuelInRow(g, t, p1, p2, s, i, n, m);
    case TChoice(p1, p2) =>
      FuelIrrelevant(g, p1, s, i, n - 1, m - 1);
      if Eval(g, p1, s, i, n - 1).Fail? { FuelIrrelevant(g, p2, s, i, n - 1, m - 1); }
    case TNot(p) => FuelIrrelevant(g, p, s, i, n - 1, m - 1);
    case TAnd(p) => FuelIrrelevant(g, p, s, i, n - 1, m - 1);
    case TBehind(k, p) => if k <= i { FuelIrrelevant(g, p, s, i - k, n - 1, m - 1); }
    case TCall(k) => if k < |g| { FuelIrrelevant(g, g[k], s, i, n - 1, m - 1); }
    case TGrammar => if 0 < |g| { FuelIrrelevant(g, g[0], s, i, n - 1, m - 1); }
    case _ =>
  }

  /** The same for `t` that matches `p` and goes on with `next` from where `p` ended. */
  lemma {:induction false} FuelInRow(g: Grammar, t: Tree, p: Tree, next: Tree, s: Subject, i: nat, n: nat, m: nat)
    requires i <= |s| && n <= m && (t == TSeq(p, next) || (t == TRep(p) && next == t))
    requires !Eval(g, t, s, i, n).OutOfFuel?
    ensures Eval(g, t, s, i, m) == Eval(g, t, s, i, n)
    decreases n, 0
  {
    FuelIrrelevant(g, p, s, i, n - 1, m - 1);
    var r := Eval(g, p, s, i, n - 1);
    if r.Ok? { FuelIrrelevant(g, next, s, r.pos, n - 1, m - 1); }
  }

  /** Matching `t` at `i` comes to an end, with outcome `r`. */
  ghost predicate Means(g: Grammar, t: Tree, s: Subject, i: nat, r: Outcome)
    requires i <= |s|
  {
    !r.OutOfFuel? && exists n: nat :: Eval(g, t, s, i, n) == r
  }

  lemma MeaningIsUnique(g: Grammar, t: Tree, s: Subject, i: nat, r1: Outcome, r2: Outcome)
    requires i <= |s| && Means(g, t, s, i, r1) && Means(g, t, s, i, r2)
    ensures r1 == r2
  {
    var n1: nat :| Eval(g, t, s, i, n1) == r1;
    var n2: nat :| Eval(g, t, s, i, n2) == r2;
    if n1 <= n2 { FuelIrrelevant(g, t, s, i, n1, n2); } else { FuelIrrelevant(g, t, s, i, n2, n1); }
  }
}
