module DnsScheduler {
  /**
   The scheduler of parallel DNS requests: which server each request waits for, timeouts, and giving
   up.  A request is known by its id.  Elapsed times and answers are inputs of the steps.
   */

  const MAX_DNS_TRIES := 3
  const SERVERS_TO_TRY := 3
  const MIN_DNS_TIMEOUT := 500
  const CAPACITY_MIN := 10
  const CAPACITY_MAX := 100
  const CAPACITY_UP_STEP := 2

  // ----- queues

  datatype Place = Unsent | Waiting(server: nat) | Sent(server: nat)

  /** `unsent`: not yet given to a server; `waiting` and `sent`: for each server. */
  datatype Queues = Queues(unsent: seq<nat>, waiting: seq<seq<nat>>, sent: seq<seq<nat>>)

  predicate ValidPlace(n: nat, p: Place) { p.Unsent? || p.server < n }

  predicate Shape(n: nat, q: Queues) { |q.waiting| == |q.sent| == n }

  function At(q: Queues, p: Place): seq<nat>
    requires Shape(|q.waiting|, q) && ValidPlace(|q.waiting|, p)
  {
    match p
    case Unsent => q.unsent
    case Waiting(s) => q.waiting[s]
    case Sent(s) => q.sent[s]
  }

  function With(q: Queues, p: Place, list: seq<nat>): Queues
    requires Shape(|q.waiting|, q) && ValidPlace(|q.waiting|, p)
  {
    match p
    case Unsent => q.(unsent := list)
    case Waiting(s) => q.(waiting := q.waiting[s := list])
    case Sent(s) => q.(sent := q.sent[s := list])
  }

  predicate NoDuplicates(list: seq<nat>) { forall i, j :: 0 <= i < j < |list| ==> list[i] != list[j] }

  /** Each request is in the list of its place, once, and in no other list. */
  ghost predicate InPlace(n: nat, q: Queues, place: map<nat, Place>) {
    && Shape(n, q)
    && (forall id :: id in place ==> ValidPlace(n, place[id]))
    && forall p | ValidPlace(n, p) :: Holds(At(q, p), place, p)
  }

  ghost predicate Holds(list: seq<nat>, place: map<nat, Place>, p: Place) {
    NoDuplicates(list) && forall id :: id in list <==> id in place && place[id] == p
  }

  function Cut(list: seq<nat>, i: nat): seq<nat>
    requires i < |list|
  {
    list[..i] + list[i + 1..]
  }

  lemma CutHolds(list: seq<nat>, i: nat, place: map<nat, Place>, p: Place)
    requires i < |list| && Holds(list, place, p)
    ensures Holds(Cut(list, i), place - {list[i]}, p)
  {
    var cut := Cut(list, i);
    forall id ensures id in cut <==> id in list && id != list[i] {
      if id in list && id != list[i] {
        var k :| 0 <= k < |list| && list[k] == id;
        assert cut[if k < i then k else k - 1] == id;
      }
    }
  }

  lemma Removed(n: nat, q: Queues, place: map<nat, Place>, p: Place, i: nat)
    requires InPlace(n, q, place) && ValidPlace(n, p) && i < |At(q, p)|
    ensures Shape(n, With(q, p, Cut(At(q, p), i)))
    ensures InPlace(n, With(q, p, Cut(At(q, p), i)), place - {At(q, p)[i]})
    ensures At(q, p)[i] in place && place[At(q, p)[i]] == p
  {
    var list := At(q, p);
    var q', place' := With(q, p, Cut(list, i)), place - {list[i]};
    assert Holds(list, place, p);
    forall r | ValidPlace(n, r) ensures Holds(At(q', r), place', r) {
      if r == p { CutHolds(list, i, place, p); } else { assert Holds(At(q, r), place, r); }
    }
  }

  function Joined(list: seq<nat>, id: nat, front: bool): seq<nat> { if front then [id] + list else list + [id] }

  lemma Added(n: nat, q: Queues, place: map<nat, Place>, p: Place, id: nat, front: bool)
    requires InPlace(n, q, place) && ValidPlace(n, p) && id !in place
    ensures Shape(n, With(q, p, Joined(At(q, p), id, front)))
    ensures InPlace(n, With(q, p, Joined(At(q, p), id, front)), place[id := p])
  {
    var q', place' := With(q, p, Joined(At(q, p), id, front)), place[id := p];
    forall r | ValidPlace(n, r) ensures Holds(At(q', r), place', r) {
      assert Holds(At(q, r), place, r);
    }
  }

  /** A request is in exactly one list. */
  lemma ExactlyOne(n: nat, q: Queues, place: map<nat, Place>, id: nat)
    requires InPlace(n, q, place)
    ensures id in place ==>
              exists p :: ValidPlace(n, p) && id in At(q, p)
                && forall r :: ValidPlace(n, r) && id in At(q, r) ==> r == p
    ensures id !in place ==> forall r :: ValidPlace(n, r) ==> id !in At(q, r)
  {
    forall r | ValidPlace(n, r) ensures id in At(q, r) <==> id in place && place[id] == r {
      assert Holds(At(q, r), place, r);
    }
    if id in place { assert ValidPlace(n, place[id]) && id in At(q, place[id]); }
  }

  // ----- requests

  /** The state of the socket of a server. */
  datatype Status = Connected | Connecting | Disconnected

  datatype Request = Request(tries: nat, serversTried: nat, first: nat, curr: nat)

  /** How long to wait for an answer by the number of tries; -1 for no more tries. */
  function ReadTimeout(n: nat, tries: nat): int
    requires n > 0 && tries <= MAX_DNS_TRIES
  {
    if n == 1 then [2 * MIN_DNS_TIMEOUT, 3 * MIN_DNS_TIMEOUT, 4 * MIN_DNS_TIMEOUT, -1][tries]
    else if n == 2 then [2 * MIN_DNS_TIMEOUT, 2 * MIN_DNS_TIMEOUT, -1, -1][tries]
    else [MIN_DNS_TIMEOUT, 2 * MIN_DNS_TIMEOUT, -1, -1][tries]
  }

  /** The waits in milliseconds: for one server, for two, and for more. */
  lemma Waits(n: nat)
    requires n > 2
    ensures ReadTimeout(1, 0) == 1000 && ReadTimeout(1, 1) == 1500 && ReadTimeout(1, 2) == 2000
    ensures ReadTimeout(2, 0) == 1000 && ReadTimeout(2, 1) == 1000
    ensures ReadTimeout(n, 0) == 500 && ReadTimeout(n, 1) == 1000
    ensures ReadTimeout(1, 3) == ReadTimeout(2, 2) == ReadTimeout(2, 3) == ReadTimeout(n, 2) == ReadTimeout(n, 3) == -1
  {
  }

  /** Tries at one server. */
  function TriesPerServer(n: nat): nat { if n == 1 then 3 else 2 }

  /** Servers tried for one request. */
  function Rounds(n: nat): nat { if n < SERVERS_TO_TRY then n else SERVERS_TO_TRY }

  /** Timeouts before a request is dropped, at most. */
  function TimeoutLimit(n: nat): nat { Rounds(n) * TriesPerServer(n) }

  lemma LimitBound(n: nat)
    ensures TimeoutLimit(n) <= 6 < MAX_DNS_TRIES * SERVERS_TO_TRY
  {
  }

  function Next(n: nat, s: nat): nat { if s + 1 == n then 0 else s + 1 }

  /** The `k`-th server after `first`. */
  function Ring(n: nat, first: nat, k: nat): int { if first + k < n then first + k else first + k - n }

  // ----- the history of a request

  /** `servers`: those that the request was given to, in order; `here`: how often it has timed out at the
      last of them; `failed`: that one reported a failure; `timeouts`, `failures`: all there were. */
  datatype History = History(servers: seq<nat>, here: nat, failed: bool, timeouts: nat, failures: nat)

  const NEVERSENT := History([], 0, false, 0, 0)

  /** The history of a request at place `p` that is sent to server `s`. */
  function Begun(p: Place, s: nat, h: History): History { if p.Unsent? then FirstGiven(s) else h }

  function FirstGiven(s: nat): (h: History)
    ensures h.servers == [s] && h.timeouts == h.failures == 0
  {
    History([s], 0, false, 0, 0)
  }

  /** With one timeout more its last server is used up. */
  predicate UsedUp(n: nat, h: History) { h.failed || h.here + 1 == TriesPerServer(n) }

  /** And there is no other server to try. */
  predicate IsLast(n: nat, h: History) { UsedUp(n, h) && |h.servers| == Rounds(n) }

  /** The history after a timeout that is not the last, with `s` the server that it happened at. */
  function OneMore(n: nat, h: History, s: nat): History {
    if UsedUp(n, h) then History(h.servers + [Next(n, s)], 0, false, h.timeouts + 1, h.failures)
    else h.(here := h.here + 1, timeouts := h.timeouts + 1)
  }

  function Failed(h: History): (r: History)
    ensures r.failed && r.failures == h.failures + 1 && r.servers == h.servers && r.timeouts == h.timeouts
  {
    h.(failed := true, failures := h.failures + 1)
  }

  predicate HistoryOk(n: nat, first: nat, h: History) {
    && 0 < |h.servers| <= Rounds(n)
    && (forall k :: 0 <= k < |h.servers| ==> h.servers[k] == Ring(n, first, k))
    && h.here < TriesPerServer(n)
    && h.timeouts <= (|h.servers| - 1) * TriesPerServer(n) + h.here
    && (h.failures == 0 ==> !h.failed && h.timeouts == (|h.servers| - 1) * TriesPerServer(n) + h.here)
  }

  /** The servers that a request was given to are different ones. */
  lemma DifferentServers(n: nat, first: nat, h: History)
    requires n > 0 && first < n && HistoryOk(n, first, h)
    ensures forall i, j :: 0 <= i < j < |h.servers| ==> h.servers[i] != h.servers[j]
    ensures forall i :: 0 < i < |h.servers| ==> h.servers[i] == Next(n, h.servers[i - 1])
  {
  }

  /** Where no server ever reported a failure, exactly the timeout at the limit is the last. */
  lemma LastAtLimit(n: nat, first: nat, h: History)
    requires n > 0 && HistoryOk(n, first, h) && h.failures == 0
    ensures IsLast(n, h) <==> h.timeouts + 1 == TimeoutLimit(n)
    ensures UsedUp(n, h) <==> (h.timeouts + 1) % TriesPerServer(n) == 0
  {
    var t := TriesPerServer(n);
    TriesAt(|h.servers| - 1, h.here, t);
  }

  lemma TriesAt(k: nat, here: nat, t: nat)
    requires (t == 2 || t == 3) && here < t
    ensures here + 1 == t <==> (k * t + here + 1) % t == 0
  {
    if t == 2 {
      assert (k * 2 + here + 1) % 2 == (here + 1) % 2;
    } else {
      assert (k * 3 + here + 1) % 3 == (here + 1) % 3;
    }
  }

  /** A request `r` at place `p` with history `h`. */
  predicate RequestOk(n: nat, r: Request, p: Place, h: History) {
    && ValidPlace(n, p) && r.tries <= MAX_DNS_TRIES
    && (p.Unsent? ==> r.tries == 0 && r.serversTried == 0 && h == NEVERSENT)
    && (!p.Unsent? ==>
          && r.first < n && HistoryOk(n, r.first, h) && r.serversTried == |h.servers| - 1
          && p.server == r.curr == h.servers[|h.servers| - 1]
          && r.tries == if h.failed then MAX_DNS_TRIES else h.here)
  }

  /** A live request has timed out less often than the limit. */
  lemma UnderLimit(n: nat, r: Request, p: Place, h: History)
    requires n > 0 && RequestOk(n, r, p, h)
    ensures h.timeouts < TimeoutLimit(n)
  {
    if !p.Unsent? { TimesLe(|h.servers|, Rounds(n), TriesPerServer(n)); }
  }

  lemma TimesLe(k: nat, m: nat, t: nat)
    requires k <= m
    ensures k * t <= m * t
  {
  }

  /** A request after a timeout, and whether it is given up. */
  function AfterTimeout(n: nat, r: Request): (Request, bool)
    requires n > 0 && r.tries <= MAX_DNS_TRIES
  {
    var tries := if r.tries + 1 > MAX_DNS_TRIES then MAX_DNS_TRIES else r.tries + 1;
    if ReadTimeout(n, tries) == -1 then
      var moved := Request(0, r.serversTried + 1, r.first, Next(n, r.curr));
      (moved, moved.curr == moved.first || moved.serversTried == SERVERS_TO_TRY)
    else (r.(tries := tries), false)
  }

  /** A timeout drops a request if and only if its last server is used up and there is no other; else it
      waits for the same server, or for the next one if this one is used up. */
  lemma TimeoutKeepsOk(n: nat, r: Request, s: nat, h: History)
    requires n > 0 && RequestOk(n, r, Sent(s), h)
    ensures r.tries <= MAX_DNS_TRIES
    ensures var (r', dropped) := AfterTimeout(n, r);
            && (dropped <==> IsLast(n, h))
            && (dropped ==> h.timeouts + 1 <= TimeoutLimit(n))
            && (!dropped ==>
                  && r'.curr == (if UsedUp(n, h) then Next(n, s) else s) < n
                  && RequestOk(n, r', Waiting(r'.curr), OneMore(n, h, s)))
  {
    UnderLimit(n, r, Sent(s), h);
    TriesLeft(n, h);
    if UsedUp(n, h) {
      NextServer(n, r, h);
    }
  }

  lemma TriesLeft(n: nat, h: History)
    requires n > 0 && h.here < TriesPerServer(n)
    ensures UsedUp(n, h) <==> ReadTimeout(n, if h.failed then MAX_DNS_TRIES else h.here + 1) == -1
    ensures TriesPerServer(n) <= MAX_DNS_TRIES
  {
  }

  /** The next server is another one until all those to try have been. */
  lemma NextServer(n: nat, r: Request, h: History)
    requires n > 0 && r.first < n && HistoryOk(n, r.first, h) && r.serversTried == |h.servers| - 1
    requires r.curr == h.servers[|h.servers| - 1]
    ensures |h.servers| == Rounds(n) <==> Next(n, r.curr) == r.first || |h.servers| == SERVERS_TO_TRY
    ensures |h.servers| < Rounds(n) ==> Next(n, r.curr) == Ring(n, r.first, |h.servers|)
  {
  }

  class Scheduler {
    const n: nat
    var queues: Queues
    var requests: map<nat, Request>
    var records: map<nat, nat>
    var deferred: seq<nat>
    var total: int
    var capacity: seq<int>
    var ssthresh: seq<int>
    var onWire: seq<int>
    var writeBusy: set<nat>
    ghost var place: map<nat, Place>
    ghost var history: map<nat, History>

    ghost predicate Valid()
      reads this
    {
      && n > 0 && Shape(n, queues) && InPlace(n, queues, place)
      && Kept(n, Books(), records, total)
      && |capacity| == |ssthresh| == |onWire| == n && writeBusy == {}
      && forall s :: 0 <= s < n ==> CAPACITY_MIN <= capacity[s] <= CAPACITY_MAX
    }

    constructor (n: nat, ids: seq<nat>)
      requires n > 0 && NoDuplicates(ids)
      ensures Valid() && this.n == n && queues.unsent == ids && place.Keys == Elements(ids)
      ensures deferred == []
    {
      this.n := n;
      queues := Queues(ids, seq(n, _ => []), seq(n, _ => []));
      requests := map id | id in ids :: Request(0, 0, 0, 0);
      records, deferred := map[], [];
      total := |ids|;
      capacity := seq(n, _ => CAPACITY_MIN);
      ssthresh := seq(n, _ => (CAPACITY_MAX + CAPACITY_MIN) / 2);
      onWire, writeBusy := seq(n, _ => 0), {};
      place := map id | id in ids :: Unsent;
      history := map id | id in ids :: NEVERSENT;
      new;
      DistinctCount(ids);
      assert requests.Keys == Elements(ids);
      AllUnsent(n, ids, place);
    }

    /** Moves the request at index `i` of the list of `p` to the list of `to`. */
    method Move(p: Place, i: nat, to: Place, front: bool) returns (id: nat)
      requires Shape(n, queues) && InPlace(n, queues, place) && ValidPlace(n, p) && ValidPlace(n, to)
               && i < |At(queues, p)|
      modifies this`queues, this`place
      ensures Shape(n, queues) && InPlace(n, queues, place)
      ensures id == At(old(queues), p)[i] && id in old(place) && old(place)[id] == p
      ensures place == old(place)[id := to]
      ensures var cut := With(old(queues), p, Cut(At(old(queues), p), i));
              Shape(n, cut) && queues == With(cut, to, Joined(At(cut, to), id, front))
    {
      hide InPlace, At, With, Joined;
      Removed(n, queues, place, p, i);
      id := At(queues, p)[i];
      queues := With(queues, p, Cut(At(queues, p), i));
      Added(n, queues, place - {id}, to, id, front);
      queues := With(queues, to, Joined(At(queues, to), id, front));
      assert place[id := to] == (place - {id})[id := to];
      place := place[id := to];
    }

    method Drop(p: Place, i: nat) returns (id: nat)
      requires Shape(n, queues) && InPlace(n, queues, place) && ValidPlace(n, p) && i < |At(queues, p)|
      modifies this`queues, this`place
      ensures Shape(n, queues) && InPlace(n, queues, place)
      ensures id == At(old(queues), p)[i] && id in old(place) && old(place)[id] == p
      ensures place == old(place) - {id} && queues == With(old(queues), p, Cut(At(old(queues), p), i))
    {
      hide InPlace, At, With;
      Removed(n, queues, place, p, i);
      id := At(queues, p)[i];
      queues := With(queues, p, Cut(At(queues, p), i));
      place := place - {id};
    }

    method CheckCapacity(s: nat, c: int)
      requires |capacity| == n && s < n && forall t :: 0 <= t < n ==> CAPACITY_MIN <= capacity[t] <= CAPACITY_MAX
      modifies this`capacity
      ensures |capacity| == n && forall t :: 0 <= t < n ==> CAPACITY_MIN <= capacity[t] <= CAPACITY_MAX
      ensures capacity == old(capacity)[s := Cropped(c)]
    {
      capacity := capacity[s := c];
      if capacity[s] < CAPACITY_MIN { capacity := capacity[s := CAPACITY_MIN]; }
      if capacity[s] > CAPACITY_MAX { capacity := capacity[s := CAPACITY_MAX]; }
    }

    /** Takes the request to send to server `s` from its list. */
    method TakeFirst(s: nat) returns (id: nat)
      requires Valid() && s < n && (queues.unsent != [] || queues.waiting[s] != [])
      modifies this`queues, this`place, this`requests, this`history
      ensures Shape(n, queues) && InPlace(n, queues, place) && queues == FirstSent(old(queues), s)
      ensures id == if old(queues).unsent != [] then old(queues).unsent[0] else old(queues).waiting[s][0]
      ensures id in old(place) && old(place)[id] == (if old(queues).unsent != [] then Unsent else Waiting(s))
      ensures place == old(place)[id := Sent(s)] && Kept(n, Books(), records[id := s], total)
      ensures id in old(history) && history == old(history)[id := Begun(old(place)[id], s, old(history)[id])]
      ensures forall k :: k in requests && k != id ==> requests[k] == old(requests)[k]
    {
      hide InPlace, With, Kept, FirstSent, Joined, RequestOk;
      if queues.unsent != [] {
        id := Move(Unsent, 0, Sent(s), true);
        FirstMoved(old(queues), s, Unsent);
        KeptSent(n, old(Books()), records, total, id, s);
        requests := requests[id := requests[id].(first := s, curr := s)];
        history := history[id := FirstGiven(s)];
      } else {
        id := Move(Waiting(s), 0, Sent(s), true);
        FirstMoved(old(queues), s, Waiting(s));
        KeptSent(n, old(Books()), records, total, id, s);
      }
    }

    /** Sends one request to server `s`: a new one first, else the oldest that waits for `s`. */
    method ServerSend(s: nat) returns (sent: bool)
      requires Valid() && s < n
      modifies this`queues, this`place, this`requests, this`records, this`onWire, this`writeBusy,
        this`history
      ensures Valid() && place.Keys == old(place.Keys)
      ensures !sent ==> place == old(place) && requests == old(requests) && history == old(history)
      ensures !sent ==> queues == old(queues) && onWire == old(onWire)
      ensures sent ==> onWire == old(onWire)[s := old(onWire)[s] + 1]
      ensures sent <==> old(onWire[s] < capacity[s] && (queues.unsent != [] || queues.waiting[s] != []))
      ensures sent ==>
                var id := if old(queues).unsent != [] then old(queues).unsent[0] else old(queues).waiting[s][0];
                && place == old(place)[id := Sent(s)] && id in old(place)
                && old(place)[id] == (if old(queues).unsent != [] then Unsent else Waiting(s))
                && queues == FirstSent(old(queues), s)
                && id in old(history) && history == old(history)[id := Begun(old(place)[id], s, old(history)[id])]
                && forall k :: k in requests && k != id ==> requests[k] == old(requests)[k]
    {
      hide InPlace, Kept, FirstSent;
      sent := false;
      if s in writeBusy || onWire[s] >= capacity[s] { return; }
      if queues.unsent == queues.waiting[s] == [] { return; }
      var id := TakeFirst(s);
      writeBusy := writeBusy + {s};
      onWire := onWire[s := onWire[s] + 1];
      records := records[id := s];
      writeBusy := writeBusy - {s};
      sent := true;
    }

    ghost function Books(): Book
      reads this
    {
      Book(place, requests, history)
    }

    /** Slows a server down, once for each round of timeouts. */
    method SlowDown(s: nat, percent: nat, adjusted: bool, eligible: bool) returns (done: bool)
      requires Valid() && s < n
      modifies this`capacity, this`ssthresh
      ensures Valid() && (done <==> adjusted || eligible)
      ensures adjusted || !eligible ==> capacity == old(capacity) && ssthresh == old(ssthresh)
      ensures !adjusted && eligible ==>
                && ssthresh == old(ssthresh)[s := Smaller(old(ssthresh)[s], old(capacity)[s])]
                && capacity == old(capacity)[s := Cropped(old(capacity)[s] * percent / 100)]
    {
      hide InPlace, Kept;
      done := adjusted;
      if !adjusted && eligible {
        ssthresh := ssthresh[s := if ssthresh[s] < capacity[s] then ssthresh[s] else capacity[s]];
        CheckCapacity(s, capacity[s] * percent / 100);
        done := true;
      }
    }

    /** Gives up the request at index `i` of those sent to `s`. */
    method GiveUp(s: nat, i: nat)
      requires Valid() && s < n && i < |queues.sent[s]|
      modifies this`queues, this`place, this`requests, this`records, this`history, this`total
      ensures Valid() && queues.sent == old(queues.sent)[s := Cut(old(queues.sent)[s], i)]
      ensures queues == Dequeued(old(queues), s, i)
      ensures var id := old(queues.sent)[s][i];
              id in old(place) && old(place)[id] == Sent(s) && Books() == Without(old(Books()), id)
    {
      hide InPlace, Kept;
      var id := Drop(Sent(s), i);
      KeptWithout(n, old(Books()), records, total, id);
      requests, history := requests - {id}, history - {id};
      records := records - {id};
      total := total - 1;
    }

    /** Lets the request at index `i` of those sent to `s` wait for a server, with the state `after`. */
    method PassOn(s: nat, i: nat, after: Request)
      requires Valid() && s < n && i < |queues.sent[s]| && after.curr < n
      requires var id := queues.sent[s][i];
               id in history && RequestOk(n, after, Waiting(after.curr), OneMore(n, history[id], s))
      modifies this`queues, this`place, this`requests, this`records, this`history
      ensures Valid() && queues.sent == old(queues.sent)[s := Cut(old(queues.sent)[s], i)]
      ensures var id := old(queues.sent)[s][i];
              id in old(place) && old(place)[id] == Sent(s) && Books() == PassedOn(n, old(Books()), id, s, after)
      ensures queues == Requeued(old(queues), s, i, after.curr)
    {
      hide InPlace, Kept, RequestOk;
      ghost var was := queues;
      var id := Move(Sent(s), i, Waiting(after.curr), false);
      MoveLists(n, was, s, i, id, after.curr);
      KeptPassedOn(n, old(Books()), records, total, id, s, after);
      requests, history := requests[id := after], history[id := OneMore(n, history[id], s)];
      records := records[id := after.curr];
    }

    /** The request at index `i` of those sent to `s` has timed out: it is tried again, passed to the
        next server, or dropped. */
    method TimeOutOne(s: nat, i: nat, adjusted: bool) returns (done: bool)
      requires Valid() && s < n && i < |queues.sent[s]|
      modifies this`queues, this`place, this`requests, this`records, this`onWire, this`history, this`total,
        this`capacity, this`ssthresh
      ensures Valid() && queues.sent == old(queues.sent)[s := Cut(old(queues.sent)[s], i)]
      ensures var id := old(queues.sent)[s][i];
              && id in old(place) && old(place)[id] == Sent(s) && Books() == Expire(n, old(Books()), id)
              && (id !in place ==> id in old(history) && old(history)[id].timeouts + 1 <= TimeoutLimit(n))
              && TimesOut(n, old(Books()), Books(), id)
              && queues == (if id in place && place[id].Waiting? && place[id].server < n
                            then Requeued(old(queues), s, i, place[id].server) else Dequeued(old(queues), s, i))
      ensures onWire == old(onWire)[s := old(onWire)[s] - 1]
      ensures old(queues.sent)[s][i] in old(history)
      ensures |old(capacity)| == |old(ssthresh)| == n
      ensures Slowed(n, s, old(history)[old(queues.sent)[s][i]], adjusted, done, Speed(old(capacity), old(ssthresh)),
                Speed(capacity, ssthresh))
    {
      hide InPlace, RequestOk, Kept, AfterTimeout, TimesOut, OneMore, HistoryOk, Cut;
      Removed(n, queues, place, Sent(s), i);
      var id := queues.sent[s][i];
      KeptHas(n, Books(), records, total, id);
      var r := requests[id];
      TimeoutKeepsOk(n, r, s, history[id]);
      var (after, dropped) := AfterTimeout(n, r);
      TriesOf(n, r, s, history[id]);
      var moved := ReadTimeout(n, if r.tries + 1 > MAX_DNS_TRIES then MAX_DNS_TRIES else r.tries + 1) == -1;
      if moved {
        done := SlowDown(s, 40, adjusted, r.serversTried == 0);
      } else {
        done := SlowDown(s, 70, adjusted, r.serversTried == 0 && after.tries <= 1);
      }
      onWire := onWire[s := onWire[s] - 1];
      HistoryIs(n, r, s, history[id]);
      if dropped { GiveUp(s, i); } else { PassOn(s, i, after); }
      ExpiresTimesOut(n, old(Books()), Books(), id, old(records), old(total));
    }

    /** Times out the expired requests among those sent to `s`.  `adjust`: the capacity may change;
        `increase`: the server has been fast enough to raise it. */
    method ServerTimeouts(s: nat, elapsed: nat -> int, adjust: bool, increase: bool)
      requires Valid() && s < n
      modifies this`queues, this`place, this`requests, this`records, this`onWire, this`history, this`total,
        this`capacity, this`ssthresh
      ensures Valid()
      ensures forall id :: Aged(n, old(Books()), Books(), id, elapsed, id in old(queues).sent[s])
      ensures forall id ::
                if id in old(queues).sent[s] && IsExpired(n, old(Books()), id, elapsed)
                then TimesOut(n, old(Books()), Books(), id)
                else SameAt(old(Books()), Books(), id)
      ensures forall t :: 0 <= t < n && t != s ==> queues.sent[t] == old(queues).sent[t]
      ensures OnlyJoined(old(queues), queues)
      ensures forall t :: 0 <= t < n && t != s ==> capacity[t] == old(capacity)[t] && ssthresh[t] == old(ssthresh)[t]
      ensures !adjust ==> capacity == old(capacity) && ssthresh == old(ssthresh)
      ensures (forall id :: id in old(queues).sent[s] ==> !IsExpired(n, old(Books()), id, elapsed)) ==>
                && queues == old(queues) && ssthresh == old(ssthresh)
                && capacity ==
                     if old(queues).sent[s] != [] && adjust && increase
                        && old(onWire)[s] > old(capacity)[s] - 2 * CAPACITY_UP_STEP
                     then old(capacity)[s := Cropped(old(capacity)[s] + CAPACITY_UP_STEP)] else old(capacity)
      ensures (exists id :: id in old(queues).sent[s] && IsExpired(n, old(Books()), id, elapsed)) ==>
                SlowedAtMostOnce(s, old(capacity), capacity)
    {
      hide InPlace, Kept, RequestOk, Expire, IsExpired, Expires, SameAt, Aged, Cut, OnlyJoined, InRound, Slowed;
      hide PartlyAged, TimesOut, Requeued, Dequeued;
      ghost var was, list := Books(), queues.sent[s];
      NoneJoined(queues);
      if queues.sent[s] == [] {
        NothingAged(was);
        NoneAged(n, was, elapsed);
        return;
      }
      var i := 0;
      var adjusted, mayIncrease := !adjust, adjust;
      ghost var late := false;
      RoundBegins(s, adjust, Speed(capacity, ssthresh));
      NothingAged(was);
      NoneAgedYet(n, was, list, elapsed);
      while i < |queues.sent[s]|
        invariant Valid() && i <= |queues.sent[s]|
        invariant PartlyAged(n, was, Books(), list, queues.sent[s], i, elapsed)
        invariant forall t :: 0 <= t < n && t != s ==> queues.sent[t] == old(queues).sent[t]
        invariant OnlyJoined(old(queues), queues)
        invariant mayIncrease <==> adjust && !late
        invariant late ==> exists id :: id in list && IsExpired(n, was, id, elapsed)
        invariant !late ==> queues == old(queues) && onWire == old(onWire) && adjusted == !adjust
        invariant !adjust ==> adjusted
        invariant InRound(s, adjust, adjusted, Speed(old(capacity), old(ssthresh)), Speed(capacity, ssthresh))
        decreases |queues.sent[s]| - i
      {
        ghost var before, sent := Books(), queues.sent[s];
        Removed(n, queues, place, Sent(s), i);
        var id := queues.sent[s][i];
        KeptHas(n, Books(), records, total, id);
        StillSame(n, was, before, list, sent, i, elapsed);
        ExpiredNow(n, before, id, elapsed);
        if ReadTimeout(n, requests[id].tries) - elapsed(id) > 0 {
          NotExpired(n, was, before, list, sent, i, elapsed);
          i := i + 1;
        } else {
          mayIncrease, late := false, true;
          CutElements(n, queues, place, s, i);
          SentOnce(n, queues, place, s);
          ghost var q, h, first, speed := queues, history[id], adjusted, Speed(capacity, ssthresh);
          adjusted := TimeOutOne(s, i, adjusted);
          RoundGoesOn(n, s, h, adjust, first, adjusted, Speed(old(capacity), old(ssthresh)), speed,
              Speed(capacity, ssthresh));
          AgedOneMore(n, was, before, list, sent, i, elapsed);
          TimedOutJoins(old(queues), q, queues, s, i);
        }
      }
      RoundEnds(s, adjust, adjusted, Speed(old(capacity), old(ssthresh)), Speed(capacity, ssthresh));
      if mayIncrease && increase && onWire[s] > capacity[s] - 2 * CAPACITY_UP_STEP {
        CheckCapacity(s, capacity[s] + CAPACITY_UP_STEP);
      }
      AllAged(n, was, Books(), list, queues.sent[s], elapsed);
      SentList(n, old(queues), old(place), s);
      ServerAged(n, was, Books(), list, elapsed, s, old(records), old(total));
    }

    /** Times out every expired request that was sent to some server. */
    method DealWithTimedOut(elapsed: nat -> int, adjust: bool, increase: nat -> bool)
      requires Valid()
      modifies this`queues, this`place, this`requests, this`records, this`onWire, this`history, this`total,
        this`capacity, this`ssthresh
      ensures Valid()
      ensures AgedBelow(n, old(Books()), Books(), elapsed, n)
      ensures AllTimedOut(n, old(Books()), Books(), elapsed)
      ensures OnlyJoined(old(queues), queues)
      ensures !adjust ==> capacity == old(capacity) && ssthresh == old(ssthresh)
    {
      hide InPlace, Kept, RequestOk, IsExpired, Expires, SameAt, Aged, AgedBelow, OnlyJoined, TimesOut;
      NoneJoined(queues);
      ghost var was, lists := Books(), queues.sent;
      var s := 0;
      NoneLooked(n, was, elapsed);
      while s < n
        invariant Valid() && s <= n
        invariant AgedBelow(n, was, Books(), elapsed, s)
        invariant forall t :: s <= t < n ==> queues.sent[t] == lists[t]
        invariant OnlyJoined(old(queues), queues)
        invariant !adjust ==> capacity == old(capacity) && ssthresh == old(ssthresh)
      {
        ghost var before, q := Books(), queues;
        SentList(n, old(queues), old(place), s);
        ServerTimeouts(s, elapsed, adjust, increase(s));
        MoreJoined(old(queues), q, queues);
        AgedMore(n, was, before, Books(), elapsed, s, lists[s]);
        s := s + 1;
      }
      AgedAllTimesOut(n, was, Books(), old(records), old(total), elapsed);
    }

    method Leave(id: nat, s: nat)
      requires Shape(n, queues) && InPlace(n, queues, place) && s < n
      requires id in place && (place[id] == Sent(s) || place[id] == Waiting(s))
      modifies this`queues, this`place
      ensures Shape(n, queues) && InPlace(n, queues, place) && place == old(place) - {id}
      ensures queues == Left(old(queues), id, s)
    {
      hide InPlace, RemoveAll;
      LeavesServer(n, queues, place, id, s);
      queues := queues.(sent := queues.sent[s := RemoveAll(queues.sent[s], id)]);
      queues := queues.(waiting := queues.waiting[s := RemoveAll(queues.waiting[s], id)]);
      place := place - {id};
    }

    /** An answer raises the capacity of a server that uses all of it, up to the threshold. */
    method SlowStart(s: nat)
      requires Valid() && s < n
      modifies this`capacity
      ensures Valid()
      ensures capacity == if old(onWire[s] == capacity[s] < ssthresh[s])
                          then old(capacity)[s := Cropped(old(capacity)[s] + CAPACITY_UP_STEP)] else old(capacity)
    {
      hide InPlace, Kept;
      if onWire[s] == capacity[s] && capacity[s] < ssthresh[s] {
        CheckCapacity(s, capacity[s] + CAPACITY_UP_STEP);
      }
    }

    /** An answer for request `id`, recorded at a server: the request leaves the lists of that server,
        and may be put aside for the system resolver. */
    method Finish(id: nat, defer: bool)
      requires Valid() && id in records
      modifies this`queues, this`place, this`requests, this`records, this`onWire, this`history, this`total,
        this`capacity, this`deferred
      ensures Valid() && id in old(place) && Books() == Without(old(Books()), id)
      ensures deferred == old(deferred) + if defer then [id] else []
      ensures queues == Left(old(queues), id, old(records)[id])
      ensures var s := old(records)[id];
              && onWire == old(onWire)[s := old(onWire)[s] - 1]
              && capacity == if old(onWire[s] == capacity[s] < ssthresh[s])
                             then old(capacity)[s := Cropped(old(capacity)[s] + CAPACITY_UP_STEP)] else old(capacity)
    {
      hide InPlace, Kept;
      Recorded(n, Books(), records, total, id);
      var s := records[id];
      SlowStart(s);
      Forget(id, s);
      if defer { deferred := deferred + [id]; }
    }

    /** Takes request `id` off the lists of server `s`, the records and the count. */
    method Forget(id: nat, s: nat)
      requires Valid() && s < n && id in place && (place[id] == Sent(s) || place[id] == Waiting(s))
      modifies this`queues, this`place, this`requests, this`records, this`onWire, this`history, this`total
      ensures Valid() && Books() == Without(old(Books()), id)
      ensures queues == Left(old(queues), id, s) && onWire == old(onWire)[s := old(onWire)[s] - 1]
    {
      hide InPlace, Kept, Left;
      records := records - {id};
      Leave(id, s);
      onWire := onWire[s := onWire[s] - 1];
      total := total - 1;
      KeptWithout(n, old(Books()), old(records), old(total), id);
      requests, history := requests - {id}, history - {id};
    }

    /** A server failure for request `id`: its tries are used up, and it times out at once if it is
        still waiting for an answer. */
    method Fail(id: nat, elapsed: nat -> int)
      requires Valid() && id in records
      modifies this`queues, this`place, this`requests, this`records, this`onWire, this`history, this`total,
        this`capacity, this`ssthresh
      ensures Valid() && id in old(requests) && id in old(history)
      ensures AgedBelow(n, Exhausted(old(Books()), id), Books(), elapsed, n)
      ensures AllTimedOut(n, Exhausted(old(Books()), id), Books(), elapsed)
      ensures OnlyJoined(old(queues), queues) && capacity == old(capacity) && ssthresh == old(ssthresh)
      ensures elapsed(id) >= 0 && old(place)[id].Sent? ==> IsExpired(n, Exhausted(old(Books()), id), id, elapsed)
    {
      hide InPlace, Kept, AgedBelow, AllTimedOut, OnlyJoined;
      Recorded(n, Books(), records, total, id);
      KeptExhausted(n, Books(), records, total, id);
      requests := requests[id := requests[id].(tries := MAX_DNS_TRIES)];
      history := history[id := Failed(history[id])];
      DealWithTimedOut(elapsed, false, _ => false);
    }

    /** Server `s` can take no more, or has nothing to send. */
    ghost predicate Served(s: nat)
      requires Shape(n, queues) && |capacity| == |onWire| == n && s < n
      reads this
    {
      onWire[s] >= capacity[s] || queues.unsent == queues.waiting[s] == []
    }

    /** Sends what the capacities allow at the servers that are connected, and no more.  `quit`: there is
        no server that is connected or connecting. */
    method DoPossibleWrites(status: nat -> Status) returns (quit: bool)
      requires Valid()
      modifies this`queues, this`place, this`requests, this`records, this`onWire, this`writeBusy, this`history
      ensures Valid() && place.Keys == old(place.Keys)
      ensures SameTimeouts(old(Books()), Books())
      ensures quit <==> forall s :: 0 <= s < n ==> status(s).Disconnected?
      ensures forall s :: 0 <= s < n && status(s).Connected? ==> Served(s)
      ensures forall s :: 0 <= s < n ==> onWire[s] <= Larger(old(onWire)[s], capacity[s])
      ensures SentOnly(status, old(place), place)
      ensures InTurn(status, old(place), place, onWire, capacity)
    {
      hide InPlace, Kept, FirstSent, SameTimeouts, SentOnly, InTurn;
      NothingSent(status, place, onWire, capacity);
      KeptHistories(n, Books(), records, total);
      quit := true;
      var s := 0;
      while s < n
        invariant Valid() && s <= n && place.Keys == old(place.Keys)
        invariant quit <==> forall t :: 0 <= t < s ==> status(t).Disconnected?
        invariant forall t :: 0 <= t < s && status(t).Connected? ==> Served(t)
        invariant forall t :: 0 <= t < n ==> onWire[t] <= Larger(old(onWire)[t], capacity[t])
        invariant SentOnly(status, old(place), place)
        invariant InTurn(status, old(place), place, onWire, capacity)
        invariant SameTimeouts(old(Books()), Books())
      {
        if !status(s).Disconnected? { quit := false; }
        ghost var before, wire := Books(), onWire;
        if status(s).Connected? {
          UnsentList(n, queues, place);
          FillServer(s, status, old(place));
          SameTimeoutsTrans(old(Books()), before, Books());
          StillInTurn(status, old(Books()), before, Books(), wire, onWire, capacity, s);
        }
        s := s + 1;
      }
    }

    /** Sends what the capacity of server `s` allows. */
    method FillServer(s: nat, ghost status: nat -> Status, ghost was: map<nat, Place>)
      requires Valid() && s < n && status(s).Connected? && SentOnly(status, was, place)
      modifies this`queues, this`place, this`requests, this`records, this`onWire, this`writeBusy, this`history
      ensures Valid() && place.Keys == old(place.Keys)
      ensures Served(s) && forall t :: 0 <= t < n && old(Served(t)) ==> Served(t)
      ensures old(onWire)[s] <= onWire[s] <= Larger(old(onWire)[s], capacity[s])
      ensures forall t :: 0 <= t < n && t != s ==> onWire[t] == old(onWire)[t]
      ensures SentOnly(status, was, place) && SentTo(s, old(place), place)
      ensures SameTimeouts(old(Books()), Books())
    {
      hide InPlace, Kept, FirstSent, SameTimeouts, Begun, SentOnly, SentTo;
      NoneSentTo(s, place);
      KeptHistories(n, Books(), records, total);
      var room := capacity[s] - onWire[s];
      while room > 0
        invariant Valid() && place.Keys == old(place.Keys)
        invariant room == capacity[s] - onWire[s] && (room >= 0 || onWire[s] == old(onWire)[s])
        invariant old(onWire)[s] <= onWire[s]
        invariant forall t :: 0 <= t < n && t != s ==> onWire[t] == old(onWire)[t]
        invariant forall t :: 0 <= t < n && old(Served(t)) ==> Served(t)
        invariant SentOnly(status, was, place) && SentTo(s, old(place), place)
        invariant SameTimeouts(old(Books()), Books())
      {
        ghost var before, book := queues, Books();
        var sent := ServerSend(s);
        if !sent { break; }
        FewerLeft(before, s);
        ghost var id := if before.unsent != [] then before.unsent[0] else before.waiting[s][0];
        SentKeepsTimeouts(old(Books()), book, Books(), id, s);
        OneSent(status, was, old(place), book.place, place, id, s);
        room := room - 1;
      }
    }
  }

  function Smaller(a: int, b: int): int { if a < b then a else b }

  /** The capacity nearest to `c`. */
  function Cropped(c: int): (r: int)
    ensures CAPACITY_MIN <= r <= CAPACITY_MAX && (CAPACITY_MIN <= c <= CAPACITY_MAX ==> r == c)
    ensures c <= CAPACITY_MIN ==> r == CAPACITY_MIN
    ensures c >= CAPACITY_MAX ==> r == CAPACITY_MAX
  {
    if c < CAPACITY_MIN then CAPACITY_MIN else if c > CAPACITY_MAX then CAPACITY_MAX else c
  }

  function Larger(a: int, b: int): int { if a > b then a else b }

  /** A request stays where it was, unless it was sent to a server that is connected: the one it waited
      for, if any. */
  predicate MayHaveSent(status: nat -> Status, was: Place, now: Place) {
    now == was || (now.Sent? && status(now.server).Connected? && (was.Unsent? || was == Waiting(now.server)))
  }

  ghost predicate SentOnly(status: nat -> Status, was: map<nat, Place>, now: map<nat, Place>) {
    was.Keys == now.Keys && forall id :: id in now ==> MayHaveSent(status, was[id], now[id])
  }

  /** Requests were sent to server `s`, and to no other. */
  ghost predicate SentTo(s: nat, was: map<nat, Place>, now: map<nat, Place>) {
    was.Keys == now.Keys && forall id :: id in now && now[id] != was[id] ==> now[id] == Sent(s) && !was[id].Sent?
  }

  /** New requests go to a server only when all connected ones before it can take no more. */
  ghost predicate InTurn(status: nat -> Status, was: map<nat, Place>, now: map<nat, Place>, wire: seq<int>,
      capacity: seq<int>)
    requires |wire| == |capacity|
  {
    forall id, s: nat, t: nat ::
      id in was && id in now && was[id].Unsent? && now[id] == Sent(t) && s < t && s < |wire| && status(s).Connected? ==>
        wire[s] >= capacity[s]
  }

  lemma NothingSent(status: nat -> Status, p: map<nat, Place>, wire: seq<int>, capacity: seq<int>)
    requires |wire| == |capacity|
    ensures SentOnly(status, p, p) && InTurn(status, p, p, wire, capacity)
  {
  }

  lemma NoneSentTo(s: nat, p: map<nat, Place>)
    ensures SentTo(s, p, p)
  {
  }

  lemma OneSent(status: nat -> Status, was: map<nat, Place>, first: map<nat, Place>, before: map<nat, Place>,
      now: map<nat, Place>, id: nat, s: nat)
    requires SentOnly(status, was, before) && SentTo(s, first, before) && status(s).Connected?
    requires id in before && (before[id].Unsent? || before[id] == Waiting(s)) && now == before[id := Sent(s)]
    ensures SentOnly(status, was, now) && SentTo(s, first, now)
  {
  }

  lemma UnsentList(n: nat, q: Queues, place: map<nat, Place>)
    requires Shape(n, q) && InPlace(n, q, place)
    ensures forall id :: id in q.unsent <==> id in place && place[id] == Unsent
  {
    assert Holds(At(q, Unsent), place, Unsent);
  }

  /** Server `s` sends after those before it. */
  lemma StillInTurn(status: nat -> Status, was: Book, before: Book, now: Book, wire: seq<int>, wire': seq<int>,
      capacity: seq<int>, s: nat)
    requires |wire| == |wire'| == |capacity| && SentTo(s, before.place, now.place)
    requires InTurn(status, was.place, before.place, wire, capacity) && SameTimeouts(was, before)
    requires forall t: nat :: t < |wire| && t != s ==> wire'[t] == wire[t]
    requires s < |wire| && wire'[s] >= wire[s]
    requires forall t: nat :: t < s && status(t).Connected? ==>
               wire[t] >= capacity[t] || forall id :: id in before.place ==> !before.place[id].Unsent?
    ensures InTurn(status, was.place, now.place, wire', capacity)
  {
    hide MayHaveSent;
  }

  /** Sending begins the history of a new request and changes no other. */
  ghost predicate SameTimeouts(was: Book, now: Book) {
    && was.history.Keys == now.history.Keys == was.place.Keys == now.place.Keys
    && forall id :: id in was.place ==>
         && (now.place[id] == was.place[id] || (now.place[id].Sent? && !was.place[id].Sent?))
         && now.history[id] == if was.place[id].Unsent? && now.place[id].Sent? then FirstGiven(now.place[id].server)
                            else was.history[id]
  }

  lemma SentKeepsTimeouts(was: Book, before: Book, now: Book, id: nat, s: nat)
    requires SameTimeouts(was, before) && id in before.place && !before.place[id].Sent?
    requires now.place == before.place[id := Sent(s)]
    requires id in before.history
    requires now.history == before.history[id := Begun(before.place[id], s, before.history[id])]
    ensures SameTimeouts(was, now)
  {
  }

  lemma SameTimeoutsTrans(a: Book, b: Book, c: Book)
    requires SameTimeouts(a, b) && SameTimeouts(b, c)
    ensures SameTimeouts(a, c)
  {
  }

  lemma KeptHistories(n: nat, b: Book, records: map<nat, nat>, total: int)
    requires Kept(n, b, records, total)
    ensures b.history.Keys == b.place.Keys && SameTimeouts(b, b)
  {
  }

  /** The queues after a send to server `s`: a new request goes first. */
  function FirstSent(q: Queues, s: nat): Queues
    requires s < |q.waiting| == |q.sent| && (q.unsent != [] || q.waiting[s] != [])
  {
    if q.unsent != [] then Queues(q.unsent[1..], q.waiting, q.sent[s := [q.unsent[0]] + q.sent[s]])
    else Queues([], q.waiting[s := q.waiting[s][1..]], q.sent[s := [q.waiting[s][0]] + q.sent[s]])
  }

  lemma FirstMoved(q: Queues, s: nat, p: Place)
    requires s < |q.waiting| == |q.sent| && (q.unsent != [] || q.waiting[s] != [])
    requires p == if q.unsent != [] then Unsent else Waiting(s)
    ensures var cut := With(q, p, Cut(At(q, p), 0));
            FirstSent(q, s) == With(cut, Sent(s), Joined(At(cut, Sent(s)), At(q, p)[0], true))
  {
    assert Cut(At(q, p), 0) == At(q, p)[1..];
  }

  lemma FewerLeft(q: Queues, s: nat)
    requires s < |q.waiting| == |q.sent| && (q.unsent != [] || q.waiting[s] != [])
    ensures var q' := FirstSent(q, s);
            && (q.unsent == [] ==> q'.unsent == [])
            && forall t :: 0 <= t < |q.waiting| && q.waiting[t] == [] ==> q'.waiting[t] == []
  {
  }

  /** Of request `id`, which is out at a server, one timeout is counted.  It is given up if that server is
      used up and there is no other; else it waits, for the same server or the next one.  As long as no
      server ever reported a failure it is given up at the limit of timeouts and not before. */
  ghost predicate TimesOut(n: nat, was: Book, now: Book, id: nat) {
    && n > 0 && id in was.place && id in was.history && was.place[id].Sent?
    && var h, s := was.history[id], was.place[id].server;
    && (id !in now.place <==> IsLast(n, h))
    && (h.failures == 0 ==> (id !in now.place <==> h.timeouts + 1 == TimeoutLimit(n)))
    && (id in now.place ==>
          && now.place[id] == Waiting(if UsedUp(n, h) then Next(n, s) else s)
          && id in now.history && now.history[id] == OneMore(n, h, s))
  }

  /** Of all requests out at servers exactly those that expired time out. */
  ghost predicate AllTimedOut(n: nat, was: Book, now: Book, elapsed: nat -> int) {
    forall id ::
      if id in was.place && was.place[id].Sent? && IsExpired(n, was, id, elapsed) then TimesOut(n, was, now, id)
      else SameAt(was, now, id)
  }

  lemma ExpiresTimesOut(n: nat, was: Book, now: Book, id: nat, records: map<nat, nat>, total: int)
    requires n > 0 && Kept(n, was, records, total) && id in was.place && was.place[id].Sent?
    requires Expires(n, was, now, id)
    ensures TimesOut(n, was, now, id)
  {
    hide HistoryOk, AfterTimeout, RequestOk, IsLast, UsedUp, OneMore, TimeoutLimit;
    KeptHas(n, was, records, total, id);
    var r, h, s := was.requests[id], was.history[id], was.place[id].server;
    TimeoutKeepsOk(n, r, s, h);
    HistoryIs(n, r, s, h);
    if h.failures == 0 { LastAtLimit(n, r.first, h); }
  }

  /** How the tries of a request that is out tell its history. */
  lemma TriesOf(n: nat, r: Request, s: nat, h: History)
    requires n > 0 && RequestOk(n, r, Sent(s), h)
    ensures UsedUp(n, h) <==> ReadTimeout(n, if r.tries + 1 > MAX_DNS_TRIES then MAX_DNS_TRIES else r.tries + 1) == -1
    ensures r.serversTried == 0 <==> |h.servers| == 1
    ensures r.tries <= MAX_DNS_TRIES
    ensures !UsedUp(n, h) ==> (AfterTimeout(n, r).0.tries <= 1 <==> h.here == 0)
  {
    TriesLeft(n, h);
  }

  lemma HistoryIs(n: nat, r: Request, s: nat, h: History)
    requires RequestOk(n, r, Sent(s), h)
    ensures HistoryOk(n, r.first, h) && r.curr == s
  {
  }

  lemma AgedAllTimesOut(n: nat, was: Book, now: Book, records: map<nat, nat>, total: int, elapsed: nat -> int)
    requires n > 0 && Kept(n, was, records, total) && AgedBelow(n, was, now, elapsed, n)
    ensures AllTimedOut(n, was, now, elapsed)
  {
    hide Kept, IsExpired, Expires, SameAt, TimesOut;
    forall id
      ensures if id in was.place && was.place[id].Sent? && IsExpired(n, was, id, elapsed) then TimesOut(n, was, now, id)
              else SameAt(was, now, id)
    {
      assert AgedAt(n, was, now, id, elapsed, n);
      if id in was.place && was.place[id].Sent? {
        KeptPlace(n, was, records, total, id);
        if IsExpired(n, was, id, elapsed) { ExpiresTimesOut(n, was, now, id, records, total); }
      }
    }
  }

  lemma KeptPlace(n: nat, b: Book, records: map<nat, nat>, total: int, id: nat)
    requires Kept(n, b, records, total) && id in b.place
    ensures ValidPlace(n, b.place[id])
  {
  }

  /** Request `id` is out at a server below `s`. */
  predicate SentBelow(b: Book, id: nat, s: nat) {
    id in b.place && b.place[id].Sent? && b.place[id].server < s
  }

  ghost predicate AgedAt(n: nat, was: Book, now: Book, id: nat, elapsed: nat -> int, s: nat) {
    Aged(n, was, now, id, elapsed, SentBelow(was, id, s))
  }

  /** Of the requests out at servers below `s` those that expired timed out once; nothing else
      happened to any request. */
  ghost predicate AgedBelow(n: nat, was: Book, now: Book, elapsed: nat -> int, s: nat) {
    forall id :: AgedAt(n, was, now, id, elapsed, s)
  }

  lemma NoneLooked(n: nat, b: Book, elapsed: nat -> int)
    ensures AgedBelow(n, b, b, elapsed, 0)
  {
  }

  lemma SentList(n: nat, q: Queues, place: map<nat, Place>, s: nat)
    requires Shape(n, q) && InPlace(n, q, place) && s < n
    ensures forall id :: id in q.sent[s] <==> id in place && place[id] == Sent(s)
  {
    assert Holds(At(q, Sent(s)), place, Sent(s));
  }

  lemma AgedMore(n: nat, was: Book, before: Book, now: Book, elapsed: nat -> int, s: nat, list: seq<nat>)
    requires forall id :: id in list <==> id in was.place && was.place[id] == Sent(s)
    requires AgedBelow(n, was, before, elapsed, s)
    requires forall id :: Aged(n, before, now, id, elapsed, id in list)
    ensures AgedBelow(n, was, now, elapsed, s + 1)
  {
    hide Expire;
    var next := s + 1;
    forall id ensures AgedAt(n, was, now, id, elapsed, next) {
      assert AgedAt(n, was, before, id, elapsed, s);
      assert Aged(n, before, now, id, elapsed, id in list);
      if id in list {
        SameExpired(n, was, before, id, elapsed);
        if IsExpired(n, was, id, elapsed) { SameExpires(n, was, before, now, id); }
      }
    }
  }

  lemma SameExpires(n: nat, was: Book, before: Book, now: Book, id: nat)
    requires SameAt(was, before, id) && Expires(n, before, now, id)
    ensures Expires(n, was, now, id)
  {
  }

  lemma Recorded(n: nat, b: Book, records: map<nat, nat>, total: int, id: nat)
    requires Kept(n, b, records, total) && id in records
    ensures id in b.place && id in b.requests && id in b.history
    ensures records[id] < n && (b.place[id] == Sent(records[id]) || b.place[id] == Waiting(records[id]))
  {
  }

  /** The request whose tries have been used up by a failure of its server. */
  function Exhausted(b: Book, id: nat): Book
    requires id in b.requests && id in b.history
  {
    b.(requests := b.requests[id := b.requests[id].(tries := MAX_DNS_TRIES)],
       history := b.history[id := Failed(b.history[id])])
  }

  lemma KeptExhausted(n: nat, b: Book, records: map<nat, nat>, total: int, id: nat)
    requires Kept(n, b, records, total) && id in records && id in b.requests && id in b.history
    ensures Kept(n, Exhausted(b, id), records, total)
  {
    hide HistoryOk, Records, RequestOk;
    SameKeys(b.requests, id, b.requests[id].(tries := MAX_DNS_TRIES));
    Recorded(n, b, records, total, id);
    FailedOk(n, b.requests[id], b.place[id], b.history[id]);
  }

  lemma FailedOk(n: nat, r: Request, p: Place, h: History)
    requires RequestOk(n, r, p, h) && !p.Unsent?
    ensures RequestOk(n, r.(tries := MAX_DNS_TRIES), p, Failed(h))
  {
  }

  /** The queues without request `id` at server `s`, in the same order. */
  function Left(q: Queues, id: nat, s: nat): Queues
    requires s < |q.waiting| == |q.sent|
  {
    Queues(q.unsent, q.waiting[s := RemoveAll(q.waiting[s], id)], q.sent[s := RemoveAll(q.sent[s], id)])
  }

  function RemoveAll(list: seq<nat>, id: nat): seq<nat> {
    if list == [] then [] else (if list[0] == id then [] else [list[0]]) + RemoveAll(list[1..], id)
  }

  lemma {:induction false} RemoveAbsent(list: seq<nat>, id: nat)
    requires id !in list
    ensures RemoveAll(list, id) == list
  {
    if list != [] { RemoveAbsent(list[1..], id); }
  }

  lemma {:induction false} RemoveOne(list: seq<nat>, i: nat)
    requires NoDuplicates(list) && i < |list|
    ensures RemoveAll(list, list[i]) == Cut(list, i)
  {
    if i == 0 {
      RemoveAbsent(list[1..], list[0]);
    } else {
      RemoveOne(list[1..], i - 1);
      assert Cut(list, i) == [list[0]] + Cut(list[1..], i - 1);
    }
  }

  /** Removing a request from both lists of its server takes it out of the queues. */
  lemma LeavesServer(n: nat, q: Queues, place: map<nat, Place>, id: nat, s: nat)
    requires Shape(n, q) && InPlace(n, q, place) && s < n && id in place
             && (place[id] == Sent(s) || place[id] == Waiting(s))
    ensures var waiting, sent := RemoveAll(q.waiting[s], id), RemoveAll(q.sent[s], id);
            var q' := Queues(q.unsent, q.waiting[s := waiting], q.sent[s := sent]);
            Shape(n, q') && InPlace(n, q', place - {id})
  {
    assert Holds(q.sent[s], place, Sent(s)) by { assert Holds(At(q, Sent(s)), place, Sent(s)); }
    assert Holds(q.waiting[s], place, Waiting(s)) by { assert Holds(At(q, Waiting(s)), place, Waiting(s)); }
    var p := place[id];
    var i :| 0 <= i < |At(q, p)| && At(q, p)[i] == id;
    RemoveOne(At(q, p), i);
    Removed(n, q, place, p, i);
    if p == Sent(s) {
      RemoveAbsent(q.waiting[s], id);
      assert q.waiting[s := q.waiting[s]] == q.waiting;
    } else {
      RemoveAbsent(q.sent[s], id);
      assert q.sent[s := q.sent[s]] == q.sent;
    }
  }

  /** The books agree on request `id`. */
  ghost predicate SameAt(a: Book, b: Book, id: nat) {
    && (id in a.place <==> id in b.place)
    && (id in a.requests <==> id in b.requests)
    && (id in a.history <==> id in b.history)
    && (id in a.place ==> a.place[id] == b.place[id])
    && (id in a.requests ==> a.requests[id] == b.requests[id])
    && (id in a.history ==> a.history[id] == b.history[id])
  }

  /** Request `id` has been out for longer than it may. */
  predicate IsExpired(n: nat, b: Book, id: nat, elapsed: nat -> int) {
    n > 0 && id in b.requests && b.requests[id].tries <= MAX_DNS_TRIES
    && ReadTimeout(n, b.requests[id].tries) - elapsed(id) <= 0
  }

  /** `now` is what `was` becomes at `id` when that request times out. */
  ghost predicate Expires(n: nat, was: Book, now: Book, id: nat) {
    n > 0 && id in was.requests && id in was.history && was.requests[id].tries <= MAX_DNS_TRIES
    && SameAt(Expire(n, was, id), now, id)
  }

  /** Request `id` timed out once if it was looked at and expired, and else is untouched. */
  ghost predicate Aged(n: nat, was: Book, now: Book, id: nat, elapsed: nat -> int, looked: bool) {
    if looked && IsExpired(n, was, id, elapsed) then Expires(n, was, now, id) else SameAt(was, now, id)
  }

  lemma NothingAged(b: Book)
    ensures forall id :: SameAt(b, b, id)
  {
  }

  lemma ExpiredNow(n: nat, b: Book, id: nat, elapsed: nat -> int)
    requires n > 0 && id in b.requests && b.requests[id].tries <= MAX_DNS_TRIES
    ensures IsExpired(n, b, id, elapsed) <==> ReadTimeout(n, b.requests[id].tries) - elapsed(id) <= 0
  {
  }

  lemma SameExpired(n: nat, was: Book, now: Book, id: nat, elapsed: nat -> int)
    requires SameAt(was, now, id)
    ensures IsExpired(n, was, id, elapsed) == IsExpired(n, now, id, elapsed)
  {
  }

  lemma ExpiredOnce(n: nat, was: Book, before: Book, id: nat)
    requires n > 0 && SameAt(was, before, id)
    requires id in before.requests && id in before.history && before.requests[id].tries <= MAX_DNS_TRIES
    ensures Expires(n, was, Expire(n, before, id), id)
    ensures forall k :: k != id ==> SameAt(before, Expire(n, before, id), k)
    ensures forall k :: k != id && SameAt(was, before, k) ==> SameAt(was, Expire(n, before, id), k)
    ensures forall k :: k != id && Expires(n, was, before, k) ==> Expires(n, was, Expire(n, before, id), k)
  {
  }

  lemma SentOnce(n: nat, q: Queues, place: map<nat, Place>, s: nat)
    requires Shape(n, q) && InPlace(n, q, place) && s < n
    ensures NoDuplicates(q.sent[s])
  {
    assert Holds(At(q, Sent(s)), place, Sent(s));
  }

  lemma CutElements(n: nat, q: Queues, place: map<nat, Place>, s: nat, i: nat)
    requires Shape(n, q) && InPlace(n, q, place) && s < n && i < |q.sent[s]|
    ensures forall id :: id in Cut(q.sent[s], i) <==> id in q.sent[s] && id != q.sent[s][i]
    ensures |Cut(q.sent[s], i)| == |q.sent[s]| - 1 && forall j :: 0 <= j < i ==> Cut(q.sent[s], i)[j] == q.sent[s][j]
  {
    assert Holds(At(q, Sent(s)), place, Sent(s));
    CutHolds(q.sent[s], i, place, Sent(s));
  }

  lemma ServerAged(n: nat, was: Book, now: Book, list: seq<nat>, elapsed: nat -> int, s: nat, records: map<nat, nat>,
      total: int)
    requires n > 0 && Kept(n, was, records, total)
    requires forall id :: id in list <==> id in was.place && was.place[id] == Sent(s)
    requires forall id :: Aged(n, was, now, id, elapsed, id in list)
    ensures forall id ::
              if id in list && IsExpired(n, was, id, elapsed) then TimesOut(n, was, now, id) else SameAt(was, now, id)
  {
    hide Kept, IsExpired, Expires, SameAt, TimesOut;
    forall id
      ensures if id in list && IsExpired(n, was, id, elapsed) then TimesOut(n, was, now, id) else SameAt(was, now, id)
    {
      assert Aged(n, was, now, id, elapsed, id in list);
      if id in list && IsExpired(n, was, id, elapsed) { ExpiresTimesOut(n, was, now, id, records, total); }
    }
  }

  /** Of the requests in `list` those not in `left` have timed out; the first `i` left have not expired. */
  ghost predicate PartlyAged(n: nat, was: Book, now: Book, list: seq<nat>, left: seq<nat>, i: nat,
      elapsed: nat -> int)
  {
    && i <= |left| && (forall id :: id in left ==> id in list)
    && (forall j :: 0 <= j < i ==> !IsExpired(n, was, left[j], elapsed))
    && forall id ::
         if id in list && id !in left then IsExpired(n, was, id, elapsed) && Expires(n, was, now, id)
         else SameAt(was, now, id)
  }

  lemma NoneAgedYet(n: nat, was: Book, list: seq<nat>, elapsed: nat -> int)
    ensures PartlyAged(n, was, was, list, list, 0, elapsed)
  {
    hide Expires, IsExpired;
  }

  lemma StillSame(n: nat, was: Book, now: Book, list: seq<nat>, left: seq<nat>, i: nat, elapsed: nat -> int)
    requires PartlyAged(n, was, now, list, left, i, elapsed) && i < |left|
    ensures left[i] in list && IsExpired(n, was, left[i], elapsed) == IsExpired(n, now, left[i], elapsed)
  {
    hide Expires, IsExpired;
    assert left[i] in left;
    SameExpired(n, was, now, left[i], elapsed);
  }

  lemma NotExpired(n: nat, was: Book, now: Book, list: seq<nat>, left: seq<nat>, i: nat, elapsed: nat -> int)
    requires PartlyAged(n, was, now, list, left, i, elapsed) && i < |left| && !IsExpired(n, was, left[i], elapsed)
    ensures PartlyAged(n, was, now, list, left, i + 1, elapsed)
  {
    hide Expires, IsExpired, SameAt;
  }

  /** The request at index `i` of those left times out. */
  lemma AgedOneMore(n: nat, was: Book, now: Book, list: seq<nat>, left: seq<nat>, i: nat, elapsed: nat -> int)
    requires n > 0 && PartlyAged(n, was, now, list, left, i, elapsed) && i < |left|
    requires IsExpired(n, was, left[i], elapsed) && NoDuplicates(left)
    requires var id := left[i]; id in now.requests && id in now.history && now.requests[id].tries <= MAX_DNS_TRIES
    ensures PartlyAged(n, was, Expire(n, now, left[i]), list, Cut(left, i), i, elapsed)
  {
    hide Expires, IsExpired, SameAt, Expire;
    var id, cut := left[i], Cut(left, i);
    assert id in left;
    ExpiredOnce(n, was, now, id);
    forall k ensures k in cut <==> k in left && k != id {
      if k in left && k != id {
        var j :| 0 <= j < |left| && left[j] == k;
        assert cut[if j < i then j else j - 1] == k;
      }
    }
  }

  lemma AllAged(n: nat, was: Book, now: Book, list: seq<nat>, left: seq<nat>, elapsed: nat -> int)
    requires PartlyAged(n, was, now, list, left, |left|, elapsed)
    ensures forall id :: Aged(n, was, now, id, elapsed, id in list)
    ensures left == list ==> forall id :: id in list ==> !IsExpired(n, was, id, elapsed)
  {
    hide Expires, IsExpired, SameAt;
  }

  /** Where each request is, its state, and its history. */
  datatype Book = Book(place: map<nat, Place>, requests: map<nat, Request>, history: map<nat, History>)

  function Without(b: Book, id: nat): Book { Book(b.place - {id}, b.requests - {id}, b.history - {id}) }

  /** Request `id` timed out at server `s`, and now waits with the state `after`. */
  function PassedOn(n: nat, b: Book, id: nat, s: nat, after: Request): Book
    requires id in b.history
  {
    Book(b.place[id := Waiting(after.curr)], b.requests[id := after], b.history[id := OneMore(n, b.history[id], s)])
  }

  /** The books after request `id` has timed out. */
  function Expire(n: nat, b: Book, id: nat): Book
    requires n > 0 && id in b.requests && id in b.history && b.requests[id].tries <= MAX_DNS_TRIES
  {
    var (after, dropped) := AfterTimeout(n, b.requests[id]);
    if dropped then Without(b, id) else PassedOn(n, b, id, b.requests[id].curr, after)
  }

  /** Every live request is in good state, counted once, and recorded at its server if it has one. */
  ghost predicate Kept(n: nat, b: Book, records: map<nat, nat>, total: int) {
    && b.requests.Keys == b.place.Keys == b.history.Keys && total == |b.requests|
    && (forall id :: id in b.place ==> RequestOk(n, b.requests[id], b.place[id], b.history[id]))
    && records == Records(b.place)
  }

  lemma KeptHas(n: nat, b: Book, records: map<nat, nat>, total: int, id: nat)
    requires Kept(n, b, records, total) && id in b.place
    ensures id in b.requests && id in b.history && RequestOk(n, b.requests[id], b.place[id], b.history[id])
    ensures b.requests[id].tries <= MAX_DNS_TRIES
    ensures id in records <==> !b.place[id].Unsent?
    ensures !b.place[id].Unsent? ==> records[id] == b.place[id].server == b.requests[id].curr
  {
  }

  lemma KeptWithout(n: nat, b: Book, records: map<nat, nat>, total: int, id: nat)
    requires Kept(n, b, records, total) && id in b.place
    ensures Kept(n, Without(b, id), records - {id}, total - 1)
  {
    hide RequestOk, Records;
    RecordsWithout(b.place, id);
    OneLess(b.requests, id);
  }

  lemma OneLess(requests: map<nat, Request>, id: nat)
    requires id in requests
    ensures |requests - {id}| == |requests| - 1
  {
    assert (requests - {id}).Keys == requests.Keys - {id};
    assert |requests - {id}| == |(requests - {id}).Keys|;
  }

  lemma RecordsWithout(place: map<nat, Place>, id: nat)
    ensures Records(place - {id}) == Records(place) - {id}
  {
  }

  lemma RecordsWith(place: map<nat, Place>, id: nat, p: Place)
    requires !p.Unsent?
    ensures Records(place[id := p]) == Records(place)[id := p.server]
  {
  }

  lemma KeptPassedOn(n: nat, b: Book, records: map<nat, nat>, total: int, id: nat, s: nat, after: Request)
    requires Kept(n, b, records, total) && id in b.place && id in b.history
    requires RequestOk(n, after, Waiting(after.curr), OneMore(n, b.history[id], s))
    ensures Kept(n, PassedOn(n, b, id, s, after), records[id := after.curr], total)
  {
    hide RequestOk, Records;
    RecordsWith(b.place, id, Waiting(after.curr));
    SameKeys(b.requests, id, after);
  }

  lemma KeptSent(n: nat, b: Book, records: map<nat, nat>, total: int, id: nat, s: nat)
    requires Kept(n, b, records, total) && s < n && id in b.place
             && (b.place[id] == Unsent || b.place[id] == Waiting(s))
    ensures id in b.requests && id in b.history && b.requests.Keys == b.history.Keys
    ensures var r := if b.place[id] == Unsent then b.requests[id].(first := s, curr := s) else b.requests[id];
            var h := if b.place[id] == Unsent then FirstGiven(s) else b.history[id];
            Kept(n, Book(b.place[id := Sent(s)], b.requests[id := r], b.history[id := h]), records[id := s], total)
    ensures b.place[id] == Waiting(s) ==>
              b.requests[id := b.requests[id]] == b.requests && b.history[id := b.history[id]] == b.history
  {
    hide RequestOk, Records;
    RecordsWith(b.place, id, Sent(s));
    SendKeepsOk(n, b.requests[id], s, b.history[id]);
    SameKeys(b.requests, id, if b.place[id] == Unsent then b.requests[id].(first := s, curr := s) else b.requests[id]);
  }

  lemma SameKeys(requests: map<nat, Request>, id: nat, r: Request)
    requires id in requests
    ensures requests[id := r].Keys == requests.Keys && |requests[id := r]| == |requests|
  {
    assert |requests[id := r]| == |requests[id := r].Keys|;
  }

  lemma MoveLists(n: nat, q: Queues, s: nat, i: nat, id: nat, to: nat)
    requires Shape(n, q) && s < n && to < n && i < |q.sent[s]| && id == q.sent[s][i]
    ensures var cut := With(q, Sent(s), Cut(q.sent[s], i));
            With(cut, Waiting(to), Joined(At(cut, Waiting(to)), id, false)) == Requeued(q, s, i, to)
  {
  }

  /** The queues after the request at index `i` of those sent to `s` left. */
  function Dequeued(q: Queues, s: nat, i: nat): Queues
    requires s < |q.sent| && i < |q.sent[s]|
  {
    Queues(q.unsent, q.waiting, q.sent[s := q.sent[s][..i] + q.sent[s][i + 1..]])
  }

  /** And after it went to the end of those that wait for `to`. */
  function Requeued(q: Queues, s: nat, i: nat, to: nat): Queues
    requires s < |q.sent| && i < |q.sent[s]| && to < |q.waiting|
  {
    Queues(q.unsent, q.waiting[to := q.waiting[to] + [q.sent[s][i]]], Dequeued(q, s, i).sent)
  }

  /** Requests only joined the ends of the waiting lists. */
  ghost predicate OnlyJoined(q: Queues, q': Queues) {
    && q'.unsent == q.unsent && |q'.waiting| == |q.waiting|
    && forall t :: 0 <= t < |q.waiting| ==> q.waiting[t] <= q'.waiting[t]
  }

  lemma OneJoined(q: Queues, s: nat, i: nat, to: nat)
    requires s < |q.sent| && i < |q.sent[s]|
    ensures OnlyJoined(q, Dequeued(q, s, i))
    ensures to < |q.waiting| ==> OnlyJoined(q, Requeued(q, s, i, to))
  {
  }

  lemma MoreJoined(a: Queues, b: Queues, c: Queues)
    requires OnlyJoined(a, b) && OnlyJoined(b, c)
    ensures OnlyJoined(a, c)
  {
  }

  lemma TimedOutJoins(a: Queues, q: Queues, q': Queues, s: nat, i: nat)
    requires OnlyJoined(a, q) && s < |q.sent| && i < |q.sent[s]|
    requires q' == Dequeued(q, s, i) || exists to: nat :: to < |q.waiting| && q' == Requeued(q, s, i, to)
    ensures OnlyJoined(a, q')
  {
    hide OnlyJoined, Dequeued, Requeued;
    if q' == Dequeued(q, s, i) {
      OneJoined(q, s, i, 0);
    } else {
      var to: nat :| to < |q.waiting| && q' == Requeued(q, s, i, to);
      OneJoined(q, s, i, to);
    }
    MoreJoined(a, q, q');
  }

  lemma NoneAged(n: nat, b: Book, elapsed: nat -> int)
    ensures forall id :: Aged(n, b, b, id, elapsed, false)
  {
  }

  lemma NoneJoined(q: Queues)
    ensures OnlyJoined(q, q)
  {
  }

  /** A first timeout of a request at its first server, or the one that uses that server up, slows the
      server down. */
  predicate SlowsDown(n: nat, h: History) { |h.servers| == 1 && (UsedUp(n, h) || h.here == 0) }

  /** Capacities and thresholds of all servers. */
  datatype Speed = Speed(capacity: seq<int>, ssthresh: seq<int>)

  /** What a timeout of a request with history `h` does to the speed of server `s`, if nothing slowed the
      server down in this round before; `done`: now something has. */
  predicate Slowed(n: nat, s: nat, h: History, adjusted: bool, done: bool, was: Speed, now: Speed)
    requires s < |was.capacity| == |was.ssthresh|
  {
    && (done <==> adjusted || SlowsDown(n, h))
    && now ==
         if !adjusted && SlowsDown(n, h) then
           Speed(was.capacity[s := Cropped(was.capacity[s] * SlowerBy(n, h) / 100)],
                 was.ssthresh[s := Smaller(was.ssthresh[s], was.capacity[s])])
         else was
  }

  /** In a round of timeouts server `s` has been slowed down once, or not at all. */
  predicate InRound(s: nat, adjust: bool, adjusted: bool, first: Speed, now: Speed)
    requires s < |first.capacity| == |first.ssthresh|
  {
    && (adjusted == !adjust ==> now == first)
    && SlowedAtMostOnce(s, first.capacity, now.capacity)
    && |now.ssthresh| == |first.ssthresh|
    && forall t :: 0 <= t < |first.ssthresh| && t != s ==> now.ssthresh[t] == first.ssthresh[t]
  }

  lemma RoundBegins(s: nat, adjust: bool, v: Speed)
    requires s < |v.capacity| == |v.ssthresh|
    ensures InRound(s, adjust, !adjust, v, v)
  {
  }

  lemma RoundEnds(s: nat, adjust: bool, adjusted: bool, first: Speed, now: Speed)
    requires s < |first.capacity| == |first.ssthresh| && InRound(s, adjust, adjusted, first, now)
    ensures adjusted == !adjust ==> now == first
    ensures SlowedAtMostOnce(s, first.capacity, now.capacity)
    ensures |now.capacity| == |first.capacity| && |now.ssthresh| == |first.ssthresh|
    ensures forall t :: 0 <= t < |first.capacity| && t != s ==>
              now.capacity[t] == first.capacity[t] && now.ssthresh[t] == first.ssthresh[t]
  {
  }

  lemma RoundGoesOn(n: nat, s: nat, h: History, adjust: bool, adjusted: bool, done: bool, first: Speed, was: Speed,
      now: Speed)
    requires s < |first.capacity| == |first.ssthresh| == |was.capacity| == |was.ssthresh|
    requires InRound(s, adjust, adjusted, first, was) && Slowed(n, s, h, adjusted, done, was, now)
    requires !adjust ==> adjusted
    ensures InRound(s, adjust, done, first, now) && (!adjust ==> done)
  {
  }

  /** The capacity is the same, or that of server `s` has been scaled once. */
  predicate SlowedAtMostOnce(s: nat, was: seq<int>, now: seq<int>)
    requires s < |was|
  {
    now == was || now == was[s := Cropped(was[s] * 40 / 100)] || now == was[s := Cropped(was[s] * 70 / 100)]
  }

  /** By how much, in percent of its capacity. */
  function SlowerBy(n: nat, h: History): nat { if UsedUp(n, h) then 40 else 70 }

  /** The server recorded for each request that was given to one. */
  ghost function Records(place: map<nat, Place>): map<nat, nat> {
    map id | id in place && !place[id].Unsent? :: place[id].server
  }

  lemma SendKeepsOk(n: nat, r: Request, s: nat, h: History)
    requires s < n
    ensures RequestOk(n, r, Unsent, h) ==> RequestOk(n, r.(first := s, curr := s), Sent(s), FirstGiven(s))
    ensures RequestOk(n, r, Waiting(s), h) ==> RequestOk(n, r, Sent(s), h)
  {
  }

  ghost function Elements(ids: seq<nat>): set<nat> { set id | id in ids }

  lemma {:induction false} DistinctCount(ids: seq<nat>)
    requires NoDuplicates(ids)
    ensures |Elements(ids)| == |ids|
  {
    if ids != [] {
      var some, last := ids[..|ids| - 1], ids[|ids| - 1];
      DistinctCount(some);
      assert ids == some + [last] && last !in some;
      assert Elements(ids) == Elements(some) + {last};
    }
  }

  lemma AllUnsent(n: nat, ids: seq<nat>, place: map<nat, Place>)
    requires NoDuplicates(ids) && place == map id | id in ids :: Unsent
    ensures InPlace(n, Queues(ids, seq(n, _ => []), seq(n, _ => [])), place)
  {
  }
}
