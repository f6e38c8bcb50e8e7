module IdleScan {
  /**
   The idle scan: finding open ports by divide and conquer with an oracle that counts, unreliably,
   the open ports of a group.

   What the zombie's counter shows for the `t`-th group asked is the parameter `reply`: any number at
   all, with a flag for lost probes.
   */

  /** `Fatal` is the end of the program. */
  datatype Scan<+T> = Done(value: T) | Fatal

  // ----- timing

  datatype Limits = Limits(minGroup: nat, maxGroup: nat, maxDelay: nat)

  datatype Timing = Timing(group: real, delay: nat)

  function Min(a: real, b: real): real { if a < b then a else b }

  function Max(a: real, b: real): real { if a > b then a else b }

  function MinDelay(a: nat, b: nat): nat { if a < b then a else b }

  /** No group should take more than half a second of delays. */
  function Cap(delay: nat): real { (500000 / (delay + 1)) as real }

  /** A delay of some per cent of `delay`, none if that is small. */
  function Relax(delay: nat, percent: nat): nat {
    var d := delay * percent / 100;
    if d < 500 then 0 else d
  }

  /** The timing after `tested` open ports were counted where `found` were found. */
  function Adjusted(l: Limits, t: Timing, tested: int, found: int): Timing {
    if tested < found then
      var delay := MinDelay(l.maxDelay, t.delay + 10000);
      Timing(Max(l.minGroup as real, Min(Max(l.minGroup as real, t.group * 0.8), Cap(delay))), delay)
    else if tested > found then
      Timing(Max(l.minGroup as real, t.group * 0.8), t.delay)
    else
      var delay := Relax(t.delay, 90);
      Timing(Min(l.maxGroup as real, Min(t.group * 1.1, Cap(delay))), delay)
  }

  /** The timing after a count, slower if probes were lost. */
  function Counted(l: Limits, t: Timing, lost: bool): Timing {
    var delay := if lost then MinDelay(l.maxDelay, t.delay + 5000) else Relax(t.delay, 95);
    Timing(Max(l.minGroup as real, Min(t.group, Cap(delay))), delay)
  }

  /** Too few ports counted: slower, in groups that do not grow and that fit the delay.  Too many: in
      smaller groups.  The right number: faster, in larger groups up to the limits. */
  lemma AdjustedMoves(l: Limits, t: Timing, tested: int, found: int)
    requires l.minGroup <= l.maxGroup && t.delay <= l.maxDelay && l.minGroup as real <= t.group
    ensures var u := Adjusted(l, t, tested, found);
            && (tested < found ==>
                  && (if t.delay + 10000 <= l.maxDelay then u.delay == t.delay + 10000 else u.delay == l.maxDelay)
                  && l.minGroup as real <= u.group <= Max(l.minGroup as real, t.group * 0.8)
                  && u.group <= Max(l.minGroup as real, Cap(u.delay))
                  && (u.group == t.group * 0.8 || u.group == l.minGroup as real || u.group == Cap(u.delay)))
            && (tested > found ==>
                  && u.delay == t.delay && l.minGroup as real <= u.group <= t.group
                  && (u.group == t.group * 0.8 || u.group == l.minGroup as real))
            && (tested == found ==>
                  && (if 9 * t.delay < 5000 then u.delay == 0 else 9 * t.delay - 10 < 10 * u.delay <= 9 * t.delay)
                  && u.group <= l.maxGroup as real && u.group <= Cap(u.delay)
                  && (u.group == t.group * 1.1 || u.group == l.maxGroup as real || u.group == Cap(u.delay)))
  {
  }

  /** Lost probes slow the scan down; groups only shrink, to fit the delay, and never below the least. */
  lemma CountedMoves(l: Limits, t: Timing, lost: bool)
    requires t.delay <= l.maxDelay && l.minGroup as real <= t.group
    ensures var u := Counted(l, t, lost);
            && (lost ==> if t.delay + 5000 <= l.maxDelay then u.delay == t.delay + 5000 else u.delay == l.maxDelay)
            && (!lost ==>
                  if 95 * t.delay < 50000 then u.delay == 0 else 95 * t.delay - 100 < 100 * u.delay <= 95 * t.delay)
            && l.minGroup as real <= u.group <= t.group && u.group <= Max(l.minGroup as real, Cap(u.delay))
            && (u.group == t.group || u.group == l.minGroup as real || u.group == Cap(u.delay))
  {
  }

  predicate InRange(l: Limits, t: Timing) {
    l.minGroup as real <= t.group <= l.maxGroup as real && t.delay <= l.maxDelay
  }

  lemma CapMonotone(a: nat, b: nat)
    requires a <= b
    ensures Cap(b) <= Cap(a)
  {
    var p, q := 500000 / (a + 1), 500000 / (b + 1);
    if p < q {
      assert (a + 1) * (p + 1) > 500000;
      assert (b + 1) * q <= 500000;
      MulLe(a + 1, p + 1, b + 1, q);
    }
  }

  lemma MulLe(a: nat, p: nat, b: nat, q: nat)
    requires a <= b && p <= q
    ensures a * p <= b * q
  {
    assert b * q - a * p == (b - a) * q + a * (q - p);
  }

  /** Counting keeps the timing in range. */
  lemma CountedInRange(l: Limits, t: Timing, lost: bool)
    requires l.minGroup <= l.maxGroup && InRange(l, t)
    ensures InRange(l, Counted(l, t, lost))
  {
  }

  /** Adjusting keeps every timing in range exactly when the least group size is no more than the
      cap at the longest delay that is left after a right count. */
  lemma AdjustedInRange(l: Limits)
    requires l.minGroup <= l.maxGroup
    ensures (forall t, tested, found :: InRange(l, t) ==> InRange(l, Adjusted(l, t, tested, found)))
       <==> l.minGroup as real <= Cap(Relax(l.maxDelay, 90))
  {
    if l.minGroup as real <= Cap(Relax(l.maxDelay, 90)) {
      forall t, tested, found | InRange(l, t) ensures InRange(l, Adjusted(l, t, tested, found)) {
        if tested == found { CapMonotone(Relax(t.delay, 90), Relax(l.maxDelay, 90)); }
      }
    } else {
      var t := Timing(l.maxGroup as real, l.maxDelay);
      assert InRange(l, t) && !InRange(l, Adjusted(l, t, 0, 0));
    }
  }

  /** With the delays of the program, that is a least group size of at most 5. */
  lemma DefaultLimits(l: Limits)
    requires l.maxDelay == 100000
    ensures l.minGroup as real <= Cap(Relax(l.maxDelay, 90)) <==> l.minGroup <= 5
  {
  }

  /** A timing with which the scan makes progress. */
  predicate Usable(l: Limits, t: Timing) {
    1.0 <= t.group <= l.maxGroup as real && t.delay <= l.maxDelay
  }

  /** Whatever the least group size, groups never become empty. */
  lemma StaysUsable(l: Limits, t: Timing)
    requires 1 <= l.minGroup <= l.maxGroup && l.maxDelay < 500000 && Usable(l, t)
    ensures forall tested, found :: Usable(l, Adjusted(l, t, tested, found))
    ensures forall lost :: Usable(l, Counted(l, t, lost))
  {
    forall tested, found ensures Usable(l, Adjusted(l, t, tested, found)) {
      if tested == found { CapMonotone(Relax(t.delay, 90), 499999); }
    }
  }

  // ----- the scan

  datatype PortState = Open | ClosedFiltered

  datatype Reply = Reply(count: int, lost: bool)

  predicate Distinct(ports: seq<nat>) { forall i, j :: 0 <= i < j < |ports| ==> ports[i] != ports[j] }

  function Ports(ports: seq<nat>): set<nat> { set p | p in ports }

  /** The zombie was asked about `group` at some time from `a` up to `b`, and `n` was counted. */
  ghost predicate Asked(reply: (nat, seq<nat>) -> Reply, a: nat, b: nat, group: seq<nat>, n: int) {
    exists t :: a <= t < b && reply(t, group).count == n
  }

  /** A port is reported open only if it was counted alone, and passed over only if some group that
      holds it was counted empty. */
  ghost predicate Evidence(reply: (nat, seq<nat>) -> Reply, a: nat, b: nat, p: nat, open: bool) {
    if open then Asked(reply, a, b, [p], 1)
    else exists group :: p in group && Asked(reply, a, b, group, 0)
  }

  /** `open` is a possible answer for `ports`, with evidence for each port. */
  ghost predicate Explained(reply: (nat, seq<nat>) -> Reply, a: nat, b: nat, ports: seq<nat>, open: set<nat>) {
    open <= Ports(ports) && forall p :: p in ports ==> Evidence(reply, a, b, p, p in open)
  }

  lemma ExplainedLater(reply: (nat, seq<nat>) -> Reply, a: nat, b: nat, c: nat, d: nat, ports: seq<nat>, open: set<nat>)
    requires Explained(reply, a, b, ports, open) && c <= a && b <= d
    ensures Explained(reply, c, d, ports, open)
  {
    forall p | p in ports ensures Evidence(reply, c, d, p, p in open) {
      assert Evidence(reply, a, b, p, p in open);
    }
  }

  lemma ExplainedBoth(reply: (nat, seq<nat>) -> Reply, a: nat, b: nat, ports: seq<nat>, n: nat, open1: set<nat>,
      open2: set<nat>)
    requires n <= |ports| && Distinct(ports)
    requires Explained(reply, a, b, ports[..n], open1) && Explained(reply, a, b, ports[n..], open2)
    ensures Explained(reply, a, b, ports, open1 + open2) && |open1 + open2| == |open1| + |open2|
  {
    assert open1 !! open2;
    forall p | p in ports ensures Evidence(reply, a, b, p, p in open1 + open2) {
      var i :| 0 <= i < |ports| && ports[i] == p;
      if i < n {
        assert p == ports[..n][i];
        assert p !in ports[n..];
      } else {
        assert p == ports[n..][i - n];
        assert p !in ports[..n];
      }
    }
  }

  /** With an oracle that counts exactly, the only explained answer is the right one. */
  lemma ExactIsRight(reply: (nat, seq<nat>) -> Reply, a: nat, b: nat, ports: seq<nat>, open: set<nat>, truth: set<nat>)
    requires Exact(reply, truth)
    requires Explained(reply, a, b, ports, open)
    ensures open == Ports(ports) * truth
  {
    forall p | p in ports ensures p in open <==> p in truth {
      assert Evidence(reply, a, b, p, p in open);
      if p in open {
        var t :| a <= t < b && reply(t, [p]).count == 1;
        assert |Ports([p]) * truth| == 1;
        assert Ports([p]) == {p};
        assert {p} * truth == if p in truth then {p} else {};
      } else {
        var group :| p in group && Asked(reply, a, b, group, 0);
        var t :| a <= t < b && reply(t, group).count == 0;
        assert |Ports(group) * truth| == 0;
        assert p in Ports(group) && p !in Ports(group) * truth;
      }
    }
    assert open == Ports(ports) * truth;
  }

  /** The oracle counts the ports of the group that are open in truth. */
  ghost predicate Exact(reply: (nat, seq<nat>) -> Reply, truth: set<nat>) {
    forall t, group :: reply(t, group).count == |Ports(group) * truth|
  }

  /** Some count of the oracle makes no sense. */
  ghost predicate Senseless(reply: (nat, seq<nat>) -> Reply) {
    exists t, group :: !(0 <= reply(t, group).count <= |group|)
  }

  lemma {:induction false} FewPorts(ports: seq<nat>)
    ensures |Ports(ports)| <= |ports|
  {
    if ports != [] {
      var n := |ports| - 1;
      FewPorts(ports[..n]);
      assert ports == ports[..n] + [ports[n]];
      assert Ports(ports) == Ports(ports[..n]) + {ports[n]};
    }
  }

  lemma ExactMakesSense(reply: (nat, seq<nat>) -> Reply, truth: set<nat>)
    requires Exact(reply, truth)
    ensures !Senseless(reply)
  {
    forall t, group ensures 0 <= reply(t, group).count <= |group| {
      FewPorts(group);
      var both := Ports(group) * truth;
      assert Ports(group) == both + (Ports(group) - truth);
      assert |Ports(group)| == |both| + |Ports(group) - truth|;
    }
  }

  /** Each port has a state, which is open for those that are open in truth. */
  predicate Tells(states: map<nat, PortState>, ports: seq<nat>, truth: set<nat>) {
    forall p :: p in ports ==> p in states && (states[p] == Open <==> p in truth)
  }

  /** The oracle never counts 0 for a group with an open port. */
  ghost predicate NoFalseZero(reply: (nat, seq<nat>) -> Reply, truth: set<nat>) {
    forall t, group :: reply(t, group).count == 0 ==> Ports(group) !! truth
  }

  /** The oracle never counts 1 for a closed port alone. */
  ghost predicate NoFalseOne(reply: (nat, seq<nat>) -> Reply, truth: set<nat>) {
    forall t, p :: reply(t, [p]).count == 1 ==> p in truth
  }

  /** Every port that is open in truth has the state open. */
  predicate TellsAll(states: map<nat, PortState>, ports: seq<nat>, truth: set<nat>) {
    forall p :: p in ports && p in truth ==> p in states && states[p] == Open
  }

  /** Every port with the state open is open in truth. */
  predicate TellsOnly(states: map<nat, PortState>, ports: seq<nat>, truth: set<nat>) {
    forall p :: p in ports && p in states && states[p] == Open ==> p in truth
  }

  /** The states after a scan with an exact oracle are right. */
  lemma ExactScan(reply: (nat, seq<nat>) -> Reply, a: nat, b: nat, ports: seq<nat>, open: set<nat>,
      was: map<nat, PortState>, truth: set<nat>)
    requires Exact(reply, truth) && Explained(reply, a, b, ports, open) && forall p :: p in ports ==> p !in was
    ensures Tells(WithRest(WithOpen(was, open), ports), ports, truth)
  {
    ExactIsRight(reply, a, b, ports, open, truth);
    StatesAfter(reply, a, b, ports, open, was);
  }

  /** With an oracle that never counts 0 for a group with an open port, no open port is missed. */
  lemma NoneMissed(reply: (nat, seq<nat>) -> Reply, a: nat, b: nat, ports: seq<nat>, open: set<nat>, truth: set<nat>)
    requires NoFalseZero(reply, truth)
    requires Explained(reply, a, b, ports, open)
    ensures Ports(ports) * truth <= open
  {
    forall p | p in ports && p !in open ensures p !in truth {
      assert Evidence(reply, a, b, p, p in open);
      var group :| p in group && Asked(reply, a, b, group, 0);
      assert p in Ports(group);
    }
  }

  /** With an oracle that never counts 1 for a closed port alone, no closed port is reported. */
  lemma NonePhantom(reply: (nat, seq<nat>) -> Reply, a: nat, b: nat, ports: seq<nat>, open: set<nat>, truth: set<nat>)
    requires NoFalseOne(reply, truth)
    requires Explained(reply, a, b, ports, open)
    ensures open <= truth
  {
    forall p | p in open ensures p in truth {
      assert p in ports;
      assert Evidence(reply, a, b, p, p in open);
    }
  }

  // ----- what was done

  /** A group was counted at some time, or the timing was adjusted after a second look. */
  datatype Event = Count(at: nat, group: seq<nat>) | Adjust(tested: int, found: int)

  /** The timing after all these events. */
  function Replay(reply: (nat, seq<nat>) -> Reply, l: Limits, t: Timing, log: seq<Event>): Timing {
    if log == [] then t else
    var before := Replay(reply, l, t, log[..|log| - 1]);
    match log[|log| - 1]
    case Count(at, group) => Counted(l, before, reply(at, group).lost)
    case Adjust(tested, found) => Adjusted(l, before, tested, found)
  }

  /** From event `from` on `group` was counted. */
  ghost predicate CountedSince(log: seq<Event>, from: nat, group: seq<nat>) {
    exists k :: from <= k < |log| && IsCount(log[k], group)
  }

  predicate IsCount(e: Event, group: seq<nat>) { e.Count? && e.group == group }

  ghost predicate CountedTwice(log: seq<Event>, from: nat, group: seq<nat>) {
    exists j, k :: from <= j < k < |log| && IsCount(log[j], group) && IsCount(log[k], group)
  }

  /** The two parts of a group were counted. */
  ghost predicate Deeper(log: seq<Event>, from: nat, group: seq<nat>) {
    var n := (|group| + 1) / 2;
    |group| > 1 && CountedSince(log, from, group[..n]) && CountedSince(log, from, group[n..])
  }

  lemma CountedLater(log: seq<Event>, from: nat, more: seq<Event>, since: nat, group: seq<nat>)
    requires log <= more && since <= from
    ensures CountedSince(log, from, group) ==> CountedSince(more, since, group)
    ensures CountedTwice(log, from, group) ==> CountedTwice(more, since, group)
    ensures Deeper(log, from, group) ==> Deeper(more, since, group)
  {
    forall g | CountedSince(log, from, g) ensures CountedSince(more, since, g) {
      var k :| from <= k < |log| && IsCount(log[k], g);
      assert more[k] == log[k];
    }
    if CountedTwice(log, from, group) {
      var j, k :| from <= j < k < |log| && IsCount(log[j], group) && IsCount(log[k], group);
      assert more[j] == log[j] && more[k] == log[k];
    }
  }

  lemma CountedAgain(log: seq<Event>, from: nat, more: seq<Event>, group: seq<nat>)
    requires log <= more && CountedSince(log, from, group) && CountedSince(more, |log|, group)
    ensures CountedTwice(more, from, group)
  {
    var j :| from <= j < |log| && IsCount(log[j], group);
    var k :| |log| <= k < |more| && IsCount(more[k], group);
    assert more[j] == log[j];
  }

  lemma ReplayMore(reply: (nat, seq<nat>) -> Reply, l: Limits, t: Timing, log: seq<Event>, e: Event)
    ensures var u := Replay(reply, l, t, log);
            Replay(reply, l, t, log + [e]) ==
              if e.Count? then Counted(l, u, reply(e.at, e.group).lost) else Adjusted(l, u, e.tested, e.found)
  {
    assert (log + [e])[..|log + [e]| - 1] == log;
  }

  class Scanner {
    const reply: (nat, seq<nat>) -> Reply
    const limits: Limits
    var timing: Timing
    var time: nat
    var states: map<nat, PortState>
    ghost const start: Timing
    ghost var log: seq<Event>

    ghost predicate Valid()
      reads this
    {
      && 1 <= limits.minGroup <= limits.maxGroup && limits.maxDelay < 500000 && Usable(limits, timing)
      && timing == Replay(reply, limits, start, log)
    }

    constructor (reply: (nat, seq<nat>) -> Reply, minGroup: nat, maxGroup: nat, slow: bool)
      requires 1 <= minGroup
      ensures Valid() && this.reply == reply && time == 0 && states == map[]
      ensures limits == Limits(minGroup, if maxGroup > minGroup then maxGroup else minGroup, 100000)
      ensures minGroup <= 30 ==> InRange(limits, timing)
      ensures log == [] && timing.delay == if slow then 5000 else 0
      ensures timing.group == if slow then Max(Min(12.0, limits.maxGroup as real), minGroup as real)
                              else Min(limits.maxGroup as real, 30.0)
    {
      this.reply := reply;
      var l := Limits(minGroup, if maxGroup > minGroup then maxGroup else minGroup, 100000);
      limits := l;
      var first :=
        if slow then Timing(Max(Min(12.0, l.maxGroup as real), minGroup as real), 5000)
        else Timing(Min(l.maxGroup as real, 30.0), 0);
      timing, start, log := first, first, [];
      time := 0;
      states := map[];
    }

    method AdjustTiming(tested: int, found: int)
      requires Valid()
      modifies this`timing, this`log
      ensures Valid() && timing == Adjusted(limits, old(timing), tested, found)
      ensures log == old(log) + [Adjust(tested, found)]
    {
      StaysUsable(limits, timing);
      ReplayMore(reply, limits, start, log, Adjust(tested, found));
      log := log + [Adjust(tested, found)];
      timing := Adjusted(limits, timing, tested, found);
    }

    /** One try to count the open ports of a group. */
    method CountOnce(ports: seq<nat>) returns (n: int)
      requires Valid()
      modifies this`timing, this`time, this`log
      ensures Valid() && time == old(time) + 1
      ensures n == reply(old(time), ports).count
      ensures timing == Counted(limits, old(timing), reply(old(time), ports).lost)
      ensures log == old(log) + [Count(old(time), ports)]
    {
      StaysUsable(limits, timing);
      ReplayMore(reply, limits, start, log, Count(time, ports));
      log := log + [Count(time, ports)];
      var r := reply(time, ports);
      n := r.count;
      timing := Counted(limits, timing, r.lost);
      time := time + 1;
    }

    /** Counts until the number makes sense, six times at most. */
    method CountOpen(ports: seq<nat>) returns (r: Scan<nat>)
      requires Valid()
      modifies this`timing, this`time, this`log
      ensures Valid() && old(time) < time <= old(time) + 6
      ensures r.Done? ==> r.value <= |ports| && Asked(reply, old(time), time, ports, r.value)
      ensures r.Fatal? ==> time == old(time) + 6
      ensures r.Fatal? ==> forall t :: old(time) <= t < time ==> !(0 <= reply(t, ports).count <= |ports|)
      ensures r.Fatal? ==> Senseless(reply)
      ensures old(log) < log && log[|log| - 1] == Count(time - 1, ports) && |log| == |old(log)| + time - old(time)
      ensures CountedSince(log, |old(log)|, ports)
    {
      hide Replay;
      var tries := 0;
      var n := -1;
      while true
        invariant Valid() && tries < 6 && time == old(time) + tries
        invariant old(log) <= log && |log| == |old(log)| + tries
        invariant forall t :: old(time) <= t < time ==> !(0 <= reply(t, ports).count <= |ports|)
        decreases 6 - tries
      {
        n := CountOnce(ports);
        tries := tries + 1;
        if tries == 6 || 0 <= n <= |ports| { break; }
      }
      assert IsCount(log[|log| - 1], ports);
      if n < 0 || n > |ports| {
        assert !(0 <= reply(old(time), ports).count <= |ports|);
        return Fatal;
      }
      return Done(n);
    }

    /** The first look at a half: a count, then a deeper scan when ports seem open in a group.
        `deep` is -1 when there was no deeper scan. */
    method ScanHalf(half: seq<nat>) returns (r: Scan<(nat, int)>, ghost open: set<nat>)
      requires Valid() && Distinct(half)
      modifies this`timing, this`time, this`states, this`log
      ensures Valid() && old(time) < time
      ensures r.Fatal? ==> Senseless(reply)
      ensures r.Done? ==>
                var (flat, deep) := r.value;
                && -1 <= deep && flat <= |half|
                && (deep == -1 ==> |half| <= 1 || flat == 0) && (deep != -1 ==> |half| > 1)
                && Answer(reply, old(time), time, half, open, if deep == -1 then flat else deep)
                && states == WithOpen(old(states), Early(half, open))
                && CountedSince(log, |old(log)|, half)
                && (deep != -1 ==> Deeper(log, |old(log)|, half) && log[|log| - 1] == Adjust(flat, deep))
      ensures old(log) <= log
      decreases if |half| > 1 then 2 * |half| + 1 else 0
    {
      hide Replay, CountedSince, CountedTwice, Deeper;
      open := {};
      var count := CountOpen(half);
      if count.Fatal? { return Fatal, open; }
      ghost var counted := log;
      var flat, deep: int := count.value, -1;
      if |half| > 1 && flat > 0 {
        var tree;
        tree, open := TreeScan(half, flat);
        if tree.Fatal? { return Fatal, open; }
        deep := tree.value;
        ghost var scanned := log;
        AdjustTiming(flat, deep);
        CountedLater(counted, |old(log)|, log, |old(log)|, half);
        DeeperLook(scanned, |counted|, half, deep != flat);
        CountedLater(scanned, |counted|, log, |old(log)|, half);
        ExplainedLater(reply, old(time) + 1, time, old(time), time, half, open);
      } else {
        open := FlatAnswer(reply, old(time), time, half, flat);
      }
      r := Done((flat, deep));
    }

    /** The second look at a half, made when the total is not what was expected: a half that was only
        counted (`deep` is -1) is counted again.  Returns the number to use instead of `flat`. */
    method RetryHalf(half: seq<nat>, flat: nat, deep: int, ghost a: nat, ghost open: set<nat>,
        ghost was: map<nat, PortState>, ghost others: set<nat>)
        returns (r: Scan<nat>, ghost now: set<nat>)
      requires Valid() && Distinct(half) && a <= time
      requires -1 <= deep && flat <= |half| && (if deep == -1 then |half| <= 1 || flat == 0 else |half| > 1)
      requires Answer(reply, a, time, half, open, if deep == -1 then flat else deep)
      requires states == WithOpen(was, Early(half, open) + others)
      modifies this`timing, this`time, this`states, this`log
      ensures Valid() && old(time) <= time
      ensures r.Fatal? ==> Senseless(reply)
      ensures r.Done? ==>
                && Answer(reply, a, time, half, now, if deep == -1 then r.value else deep)
                && states == WithOpen(was, Early(half, now) + others)
                && (deep != -1 ==> r.value == flat && log == old(log))
                && (deep == -1 ==> CountedSince(log, |old(log)|, half))
                && (r.value != flat ==> log[|log| - 1].Adjust? && log[|log| - 1].found == r.value)
      ensures old(log) <= log
      decreases if |half| > 1 then 2 * |half| + 1 else 0, 1
    {
      hide Explained, WithOpen, Replay, CountedSince, CountedTwice, Deeper;
      if deep != -1 { return Done(flat), open; }
      NothingEarly(reply, a, time, half, open, flat);
      now := open;
      var count := CountOpen(half);
      if count.Fatal? { return Fatal, now; }
      var retry := count.value;
      ghost var again := log;
      var flatNow := flat;
      if retry != flat {
        if |half| > 1 && retry > 0 {
          var tree;
          ghost var counted := time;
          tree, now := TreeScan(half, retry);
          if tree.Fatal? { return Fatal, now; }
          AdjustTiming(retry, tree.value);
          retry := tree.value;
          ExplainedLater(reply, counted, time, a, time, half, now);
          MarkedTwice(was, {} + others, now);
          assert {} + others + now == now + others;
        } else {
          AdjustTiming(flat, retry);
          now := FlatAnswer(reply, a, time, half, retry);
        }
        CountedLater(again, |old(log)|, log, |old(log)|, half);
        flatNow := retry;
        // never the case, as flatNow is retry here
        states := if |half| == 1 && flatNow == 1 && retry == 0 then states - Ports(half) else states;
      } else {
        ExplainedLater(reply, a, old(time), a, time, half, open);
      }
      r := Done(flatNow);
    }

    /** A port that was counted alone is marked at the end. */
    method MarkSingle(half: seq<nat>, flat: nat)
      modifies this`states
      ensures states == Marked(old(states), half, flat)
    {
      if |half| == 1 && flat == 1 { states := states[half[0] := Open]; }
    }

    /** The second look at both halves. */
    method RetryBoth(half1: seq<nat>, flat1: nat, deep1: int, half2: seq<nat>, flat2: nat, deep2: int, ghost a: nat,
        ghost open1: set<nat>, ghost open2: set<nat>, ghost was: map<nat, PortState>)
        returns (r: Scan<(nat, nat)>, ghost now1: set<nat>, ghost now2: set<nat>)
      requires Valid() && Distinct(half1) && Distinct(half2) && a <= time
      requires 0 < |half1| && |half2| <= |half1| <= |half2| + 1
      requires -1 <= deep1 && flat1 <= |half1| && (if deep1 == -1 then |half1| <= 1 || flat1 == 0 else |half1| > 1)
      requires -1 <= deep2 && flat2 <= |half2| && (if deep2 == -1 then |half2| <= 1 || flat2 == 0 else |half2| > 1)
      requires Answer(reply, a, time, half1, open1, if deep1 == -1 then flat1 else deep1)
      requires Answer(reply, a, time, half2, open2, if deep2 == -1 then flat2 else deep2)
      requires states == WithOpen(was, Early(half1, open1) + Early(half2, open2))
      modifies this`timing, this`time, this`states, this`log
      ensures Valid() && old(time) <= time
      ensures r.Fatal? ==> Senseless(reply)
      ensures r.Done? ==>
                && Answer(reply, a, time, half1, now1, if deep1 == -1 then r.value.0 else deep1)
                && Answer(reply, a, time, half2, now2, if deep2 == -1 then r.value.1 else deep2)
                && states == WithOpen(was, Early(half1, now1) + Early(half2, now2))
                && (deep1 != -1 ==> r.value.0 == flat1) && (deep2 != -1 ==> r.value.1 == flat2)
                && (deep1 == -1 ==> CountedSince(log, |old(log)|, half1))
                && (deep2 == -1 ==> CountedSince(log, |old(log)|, half2))
      ensures old(log) <= log
      decreases 2 * (|half1| + |half2|), 0
    {
      hide WithOpen, Early, Answer, Distinct, Senseless, Replay, CountedSince, CountedTwice, Deeper;
      ghost var before := time;
      now1, now2 := open1, open2;
      var first, second;
      first, now1 := RetryHalf(half1, flat1, deep1, a, open1, was, Early(half2, open2));
      if first.Fatal? { return Fatal, now1, now2; }
      AnswerLater(reply, a, before, a, time, half2, open2, if deep2 == -1 then flat2 else deep2);
      before := time;
      assert Early(half1, now1) + Early(half2, open2) == Early(half2, open2) + Early(half1, now1);
      ghost var between := log;
      second, now2 := RetryHalf(half2, flat2, deep2, a, open2, was, Early(half1, now1));
      CountedLater(between, |old(log)|, log, |old(log)|, half1);
      CountedLater(log, |between|, log, |old(log)|, half2);
      if second.Fatal? { return Fatal, now1, now2; }
      AnswerLater(reply, a, before, a, time, half1, now1, if deep1 == -1 then first.value else deep1);
      assert Early(half1, now1) + Early(half2, now2) == Early(half2, now2) + Early(half1, now1);
      r := Done((first.value, second.value));
    }

    /** Finds the open ports among `ports`: marks exactly as many as it returns, all of them in
        `ports`, and has evidence for each mark and for each port left unmarked. */
    method TreeScan(ports: seq<nat>, expected: int) returns (r: Scan<nat>, ghost open: set<nat>)
      requires Valid() && Distinct(ports) && |ports| > 0
      modifies this`timing, this`time, this`states, this`log
      ensures Valid() && old(time) < time
      ensures r.Fatal? ==> Senseless(reply)
      ensures r.Done? ==> Answer(reply, old(time), time, ports, open, r.value)
      ensures r.Done? ==> states == WithOpen(old(states), open)
      ensures old(log) <= log
      ensures r.Done? ==> LookedAt(log, |old(log)|, ports, r.value != expected)
      decreases 2 * |ports|
    {
      hide Explained, WithOpen, Early, Evidence, Asked, Answer, Distinct, Senseless, Replay, LookedAt;
      hide CountedSince, CountedTwice, Deeper, Marked;
      HalvesDistinct(ports, (|ports| + 1) / 2);
      var size1 := (|ports| + 1) / 2;
      var half1, half2 := ports[..size1], ports[size1..];
      ghost var open1, open2;
      open := {};
      var look1, look2;
      look1, open1 := ScanHalf(half1);
      if look1.Fatal? { return Fatal, open; }
      var (flat1, deep1) := look1.value;
      ghost var seen1, log1 := time, log;
      look2, open2 := ScanHalf(half2);
      if look2.Fatal? { return Fatal, open; }
      var (flat2, deep2) := look2.value;
      ghost var log2 := log;
      LaterLook(log1, |old(log)|, log2, |old(log)|, half1);
      LaterLook(log2, |log1|, log2, |old(log)|, half2);
      AnswerLater(reply, old(time), seen1, old(time), time, half1, open1, if deep1 == -1 then flat1 else deep1);
      AnswerLater(reply, seen1, time, old(time), time, half2, open2, if deep2 == -1 then flat2 else deep2);
      MarkedTwice(old(states), Early(half1, open1), Early(half2, open2));
      var total := (if deep1 == -1 then flat1 else deep1) + (if deep2 == -1 then flat2 else deep2);
      if total != expected {
        var retry;
        retry, open1, open2 :=
          RetryBoth(half1, flat1, deep1, half2, flat2, deep2, old(time), open1, open2, old(states));
        if retry.Fatal? { return Fatal, open; }
        SecondLook(log2, |old(log)|, log, half1);
        SecondLook(log2, |old(log)|, log, half2);
        var (now1, now2) := retry.value;
        total := total + now1 - flat1 + now2 - flat2;
        flat1, flat2 := now1, now2;
      }
      BothMarks(reply, old(time), time, old(states), half1, open1, flat1, deep1, half2, open2, flat2, deep2);
      MarkSingle(half1, flat1);
      MarkSingle(half2, flat2);
      AnswerBoth(reply, old(time), time, ports, size1, open1, if deep1 == -1 then flat1 else deep1, open2,
          if deep2 == -1 then flat2 else deep2);
      open := open1 + open2;
      LaterLook(log2, |old(log)|, log, |old(log)|, half1);
      LaterLook(log2, |old(log)|, log, |old(log)|, half2);
      Looked(log, |old(log)|, ports, total != expected);
      r := Done(total);
    }

    /** Scans the ports group by group: each is scanned exactly once, whatever the timing does to
        the size of the groups. */
    method ScanGroups(ports: seq<nat>) returns (r: Scan<()>, ghost open: set<nat>, ghost chunks: seq<Chunk>)
      requires Valid() && Distinct(ports)
      modifies this`timing, this`time, this`states, this`log
      ensures Valid()
      ensures r.Fatal? ==> Senseless(reply)
      ensures r.Done? ==> Explained(reply, old(time), time, ports, open) && states == WithOpen(old(states), open)
      ensures old(log) <= log
      ensures r.Done? ==>
                && Tile(chunks, |ports|)
                && forall c :: c in chunks ==> c.left == |ports| - c.first && SizedAs(c, reply, limits, start, log)
    {
      hide Explained, WithOpen, Replay, LookedAt, SizedAs;
      open, chunks := {}, [];
      var i := 0;
      NothingExplained(reply, time, ports, states);
      while i < |ports|
        invariant Valid() && i <= |ports| && old(time) <= time
        invariant Explained(reply, old(time), time, ports[..i], open) && old(log) <= log
        invariant Tile(chunks, i)
        invariant forall c :: c in chunks ==> c.left == |ports| - c.first && SizedAs(c, reply, limits, start, log)
        invariant states == WithOpen(old(states), open)
      {
        var left := |ports| - i;
        var twice := (timing.group * 2.0).Floor;
        var group := if left < twice then left else twice;
        ghost var before, found := time, {};
        ghost var chunk, seen := Chunk(|log|, i, left, group), log;
        Sized(chunk, reply, limits, start, log, timing);
        var tree;
        tree, found := TreeScan(ports[i..i + group], -1);
        if tree.Fatal? { return Fatal, open, chunks; }
        forall c | c in chunks + [chunk] ensures SizedAs(c, reply, limits, start, log) {
          SizedLater(c, reply, limits, start, seen, log);
        }
        TileMore(chunks, chunk, i);
        chunks := chunks + [chunk];
        MarkedTwice(old(states), open, found);
        NextGroup(reply, old(time), before, time, ports, i, group, open, found);
        open := open + found;
        i := i + group;
      }
      assert ports[..i] == ports;
      r := Done(());
    }

    /** Marks the ports without a state as closed or filtered. */
    method CloseRest(ports: seq<nat>)
      modifies this`states
      ensures states == WithRest(old(states), ports)
    {
      var i := 0;
      NoRest(states, ports);
      while i < |ports|
        invariant i <= |ports|
        invariant states == WithRest(old(states), ports[..i])
      {
        hide WithRest;
        RestStep(old(states), ports, i);
        if ports[i] !in states { states := states[ports[i] := ClosedFiltered]; }
        i := i + 1;
      }
      assert ports[..i] == ports;
    }

    method IdleScan(ports: seq<nat>) returns (r: Scan<()>, ghost open: set<nat>)
      requires Valid() && Distinct(ports)
      modifies this`timing, this`time, this`states, this`log
      ensures Valid()
      ensures r.Fatal? ==> Senseless(reply)
      ensures r.Done? ==>
                && Explained(reply, old(time), time, ports, open)
                && states == WithRest(WithOpen(old(states), open), ports)
      ensures (forall p :: p in ports ==> p !in old(states)) ==>
                forall truth ::
                  && (Exact(reply, truth) ==> r.Done? && Tells(states, ports, truth))
                  && (r.Done? && NoFalseZero(reply, truth) ==> TellsAll(states, ports, truth))
                  && (r.Done? && NoFalseOne(reply, truth) ==> TellsOnly(states, ports, truth))
    {
      ghost var chunks;
      r, open, chunks := ScanGroups(ports);
      if r.Done? { CloseRest(ports); }
      if forall p :: p in ports ==> p !in old(states) {
        forall truth | Exact(reply, truth) ensures r.Done? && Tells(states, ports, truth) {
          ExactMakesSense(reply, truth);
          ExactScan(reply, old(time), time, ports, open, old(states), truth);
        }
        forall truth | r.Done? && NoFalseZero(reply, truth) ensures TellsAll(states, ports, truth) {
          NoneMissed(reply, old(time), time, ports, open, truth);
          StatesAfter(reply, old(time), time, ports, open, old(states));
        }
        forall truth | r.Done? && NoFalseOne(reply, truth) ensures TellsOnly(states, ports, truth) {
          NonePhantom(reply, old(time), time, ports, open, truth);
          StatesAfter(reply, old(time), time, ports, open, old(states));
        }
      }
    }
  }

  /** A group of `size` ports from index `first` on, with `left` ports left, scanned after `seen` events. */
  datatype Chunk = Chunk(seen: nat, first: nat, left: nat, size: nat)

  /** Its size is twice the group size of that time, or what was left. */
  ghost predicate SizedAs(c: Chunk, reply: (nat, seq<nat>) -> Reply, l: Limits, start: Timing, log: seq<Event>) {
    && c.seen <= |log|
    && var twice := (Replay(reply, l, start, log[..c.seen]).group * 2.0).Floor;
       c.size == if c.left < twice then c.left else twice
  }

  lemma Sized(c: Chunk, reply: (nat, seq<nat>) -> Reply, l: Limits, start: Timing, log: seq<Event>, t: Timing)
    requires c.seen == |log| && t == Replay(reply, l, start, log)
    requires var twice := (t.group * 2.0).Floor; c.size == if c.left < twice then c.left else twice
    ensures SizedAs(c, reply, l, start, log)
  {
    assert log[..|log|] == log;
  }

  lemma SizedLater(c: Chunk, reply: (nat, seq<nat>) -> Reply, l: Limits, start: Timing, log: seq<Event>,
      more: seq<Event>)
    requires SizedAs(c, reply, l, start, log) && log <= more
    ensures SizedAs(c, reply, l, start, more)
  {
    assert more[..c.seen] == log[..c.seen];
  }

  /** One after the other the chunks cover the first `n` ports. */
  predicate Tile(chunks: seq<Chunk>, n: nat) {
    if chunks == [] then n == 0
    else
      var c := chunks[|chunks| - 1];
      c.first + c.size == n && Tile(chunks[..|chunks| - 1], c.first)
  }

  lemma TileMore(chunks: seq<Chunk>, c: Chunk, i: nat)
    requires Tile(chunks, i) && c.first == i
    ensures Tile(chunks + [c], i + c.size)
  {
    assert (chunks + [c])[..|chunks|] == chunks;
  }

  /** Both halves of the ports were counted; `again`: and each of them counted again, or looked at in its
      parts. */
  ghost predicate LookedAt(log: seq<Event>, from: nat, ports: seq<nat>, again: bool) {
    var n := (|ports| + 1) / 2;
    && CountedSince(log, from, ports[..n]) && CountedSince(log, from, ports[n..])
    && (again ==>
          && (CountedTwice(log, from, ports[..n]) || Deeper(log, from, ports[..n]))
          && (CountedTwice(log, from, ports[n..]) || Deeper(log, from, ports[n..])))
  }

  lemma Looked(log: seq<Event>, from: nat, ports: seq<nat>, again: bool)
    requires var n := (|ports| + 1) / 2;
             CountedSince(log, from, ports[..n]) && CountedSince(log, from, ports[n..])
    requires var n := (|ports| + 1) / 2;
             again ==>
               && (CountedTwice(log, from, ports[..n]) || Deeper(log, from, ports[..n]))
               && (CountedTwice(log, from, ports[n..]) || Deeper(log, from, ports[n..]))
    ensures LookedAt(log, from, ports, again)
  {
  }

  lemma LaterLook(log: seq<Event>, from: nat, more: seq<Event>, since: nat, group: seq<nat>)
    requires log <= more && since <= from
    ensures CountedSince(log, from, group) ==> CountedSince(more, since, group)
    ensures Deeper(log, from, group) ==> Deeper(more, since, group)
  {
    hide CountedSince, Deeper;
    CountedLater(log, from, more, since, group);
  }

  lemma DeeperLook(log: seq<Event>, from: nat, ports: seq<nat>, again: bool)
    requires |ports| > 1 && LookedAt(log, from, ports, again)
    ensures Deeper(log, from, ports)
  {
  }

  lemma SecondLook(log: seq<Event>, from: nat, more: seq<Event>, group: seq<nat>)
    requires log <= more && CountedSince(log, from, group)
    ensures CountedSince(more, |log|, group) ==> CountedTwice(more, from, group)
  {
    hide CountedSince, CountedTwice;
    if CountedSince(more, |log|, group) { CountedAgain(log, from, more, group); }
  }

  function WithRest(states: map<nat, PortState>, ports: seq<nat>): map<nat, PortState> {
    (map p | p in ports :: ClosedFiltered) + states
  }

  lemma NoRest(states: map<nat, PortState>, ports: seq<nat>)
    ensures WithRest(states, ports[..0]) == states
  {
  }

  lemma RestStep(states: map<nat, PortState>, ports: seq<nat>, i: nat)
    requires i < |ports|
    ensures var now := WithRest(states, ports[..i]);
            WithRest(states, ports[..i + 1]) == if ports[i] in now then now else now[ports[i] := ClosedFiltered]
  {
    assert forall p :: p in ports[..i + 1] <==> p in ports[..i] || p == ports[i];
  }

  /** After a scan of ports without a state, those found open and only those are open. */
  lemma StatesAfter(reply: (nat, seq<nat>) -> Reply, a: nat, b: nat, ports: seq<nat>, open: set<nat>,
      was: map<nat, PortState>)
    requires Explained(reply, a, b, ports, open) && forall p :: p in ports ==> p !in was
    ensures var now := WithRest(WithOpen(was, open), ports);
            forall p :: p in ports ==> p in now && (now[p] == Open <==> p in open)
  {
  }

  lemma NothingExplained(reply: (nat, seq<nat>) -> Reply, a: nat, ports: seq<nat>, states: map<nat, PortState>)
    ensures Explained(reply, a, a, ports[..0], {}) && WithOpen(states, {}) == states
  {
  }

  lemma NextGroup(reply: (nat, seq<nat>) -> Reply, a: nat, b: nat, c: nat, ports: seq<nat>, i: nat, group: nat,
      open: set<nat>, found: set<nat>)
    requires a <= b <= c && i + group <= |ports| && Distinct(ports)
    requires Explained(reply, a, b, ports[..i], open)
    requires Explained(reply, b, c, ports[i..i + group], found)
    ensures Explained(reply, a, c, ports[..i + group], open + found)
  {
    hide Explained, Evidence;
    var upto := ports[..i + group];
    assert upto[..i] == ports[..i] && upto[i..] == ports[i..i + group];
    ExplainedLater(reply, a, b, a, c, ports[..i], open);
    ExplainedLater(reply, b, c, a, c, ports[i..i + group], found);
    ExplainedBoth(reply, a, c, upto, i, open, found);
  }

  /** Marking a single port at the end completes the marks of its half. */
  lemma LateMarks(reply: (nat, seq<nat>) -> Reply, a: nat, b: nat, states: map<nat, PortState>, half: seq<nat>,
      open: set<nat>, others: set<nat>, flat: nat, n: nat)
    requires Answer(reply, a, b, half, open, n) && (|half| <= 1 ==> n == flat)
    ensures var early := WithOpen(states, Early(half, open) + others);
            var late := WithOpen(states, open + others);
            if |half| == 1 && flat == 1 then late == early[half[0] := Open] else late == early
  {
    if |half| == 1 {
      assert open <= {half[0]};
      assert open == if n == 1 then {half[0]} else {} by { Singleton(open, half[0]); }
    }
  }

  function Marked(states: map<nat, PortState>, half: seq<nat>, flat: nat): map<nat, PortState> {
    if |half| == 1 && flat == 1 then states[half[0] := Open] else states
  }

  lemma BothMarks(reply: (nat, seq<nat>) -> Reply, a: nat, b: nat, was: map<nat, PortState>, half1: seq<nat>,
      open1: set<nat>, flat1: nat, deep1: int, half2: seq<nat>, open2: set<nat>, flat2: nat, deep2: int)
    requires -1 <= deep1 && (deep1 != -1 ==> |half1| > 1)
    requires -1 <= deep2 && (deep2 != -1 ==> |half2| > 1)
    requires Answer(reply, a, b, half1, open1, if deep1 == -1 then flat1 else deep1)
    requires Answer(reply, a, b, half2, open2, if deep2 == -1 then flat2 else deep2)
    ensures Marked(Marked(WithOpen(was, Early(half1, open1) + Early(half2, open2)), half1, flat1), half2, flat2)
         == WithOpen(was, open1 + open2)
  {
    hide Answer, WithOpen, Early;
    LateMarks(reply, a, b, was, half1, open1, Early(half2, open2), flat1, if deep1 == -1 then flat1 else deep1);
    LateMarks(reply, a, b, was, half2, open2, open1, flat2, if deep2 == -1 then flat2 else deep2);
    assert open1 + Early(half2, open2) == Early(half2, open2) + open1 && open2 + open1 == open1 + open2;
  }

  lemma Singleton(open: set<nat>, p: nat)
    requires open <= {p}
    ensures open == if |open| == 1 then {p} else {}
  {
    if p in open { assert open == {p}; } else { assert open == {}; }
  }

  lemma MarkedTwice(states: map<nat, PortState>, a: set<nat>, b: set<nat>)
    ensures WithOpen(WithOpen(states, a), b) == WithOpen(states, a + b)
  {
  }

  /** `open` is an answer for `ports`, of size `n`. */
  ghost predicate Answer(reply: (nat, seq<nat>) -> Reply, a: nat, b: nat, ports: seq<nat>, open: set<nat>, n: nat) {
    Explained(reply, a, b, ports, open) && |open| == n
  }

  lemma AnswerLater(reply: (nat, seq<nat>) -> Reply, a: nat, b: nat, c: nat, d: nat, ports: seq<nat>, open: set<nat>,
      n: nat)
    requires Answer(reply, a, b, ports, open, n) && c <= a && b <= d
    ensures Answer(reply, c, d, ports, open, n)
  {
    hide Explained;
    ExplainedLater(reply, a, b, c, d, ports, open);
  }

  lemma AnswerBoth(reply: (nat, seq<nat>) -> Reply, a: nat, b: nat, ports: seq<nat>, n: nat, open1: set<nat>, n1: nat,
      open2: set<nat>, n2: nat)
    requires n <= |ports| && Distinct(ports)
    requires Answer(reply, a, b, ports[..n], open1, n1) && Answer(reply, a, b, ports[n..], open2, n2)
    ensures Answer(reply, a, b, ports, open1 + open2, n1 + n2)
  {
    hide Explained, Distinct;
    ExplainedBoth(reply, a, b, ports, n, open1, open2);
  }

  lemma HalvesDistinct(ports: seq<nat>, n: nat)
    requires n <= |ports| && Distinct(ports)
    ensures Distinct(ports[..n]) && Distinct(ports[n..])
  {
  }

  /** The marks made for a half before the end of the scan: a single port is only marked then. */
  ghost function Early(half: seq<nat>, open: set<nat>): set<nat> { if |half| == 1 then {} else open }

  function WithOpen(states: map<nat, PortState>, open: set<nat>): map<nat, PortState> {
    states + map p | p in open :: Open
  }

  lemma FlatAnswer(reply: (nat, seq<nat>) -> Reply, a: nat, b: nat, half: seq<nat>, flat: nat) returns (open: set<nat>)
    requires |half| <= 1 || flat == 0
    requires flat <= |half|
    requires exists a' :: a <= a' && Asked(reply, a', b, half, flat)
    ensures Answer(reply, a, b, half, open, flat) && Early(half, open) == {}
  {
    open := if flat == 0 then {} else {half[0]};
    if flat != 0 { assert half == [half[0]]; }
    assert Asked(reply, a, b, half, flat);
  }

  lemma NothingEarly(reply: (nat, seq<nat>) -> Reply, a: nat, b: nat, half: seq<nat>, open: set<nat>, flat: nat)
    requires |half| <= 1 || flat == 0
    requires Answer(reply, a, b, half, open, flat)
    ensures Early(half, open) == {}
  {
    if |half| == 0 { assert open == {}; }
  }
}
