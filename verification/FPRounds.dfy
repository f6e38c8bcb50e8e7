module FPRounds {
  /**
   The timed probes of an IPv6 fingerprint host: they are sent together, and sent again together as
   long as some stay without an answer.  Times and matches of captured packets are inputs.
   */

  import opened Peg

  /** A captured packet. */
  type Packet = seq<int>

  datatype Response = Response(probe: nat, packet: Packet)

  type Answers = seq<Option<Response>>

  function Count(a: Answers): (n: nat)
    ensures n <= |a|
  {
    if a == [] then 0 else Count(a[..|a| - 1]) + if a[|a| - 1].Some? then 1 else 0
  }

  function NoAnswers(n: nat): Answers { seq(n, _ => None) }

  lemma {:induction false} NoAnswersCount(n: nat)
    ensures Count(NoAnswers(n)) == 0
  {
    if n > 0 {
      assert NoAnswers(n)[..n - 1] == NoAnswers(n - 1);
      NoAnswersCount(n - 1);
    }
  }

  // ----- rounds

  /** The first of the largest closed rounds; no answers as long as none has any. */
  function Best(n: nat, rounds: seq<Answers>): Answers {
    if rounds == [] then NoAnswers(n)
    else
      var before := Best(n, rounds[..|rounds| - 1]);
      var last := rounds[|rounds| - 1];
      if Count(last) > Count(before) then last else before
  }

  /** Round `k` is the best one, and the first with as many answers. */
  predicate FirstBest(n: nat, rounds: seq<Answers>, k: int) {
    0 <= k < |rounds| && rounds[k] == Best(n, rounds) && forall j :: 0 <= j < k ==> Count(rounds[j]) < Count(rounds[k])
  }

  lemma {:induction false} BestIsLargest(n: nat, rounds: seq<Answers>)
    ensures forall r :: r in rounds ==> Count(r) <= Count(Best(n, rounds))
    ensures Best(n, rounds) in rounds || Best(n, rounds) == NoAnswers(n)
    ensures Count(Best(n, rounds)) > 0 ==> exists k :: FirstBest(n, rounds, k)
  {
    if rounds == [] {
      NoAnswersCount(n);
    } else {
      var some, last := rounds[..|rounds| - 1], rounds[|rounds| - 1];
      BestIsLargest(n, some);
      assert rounds == some + [last];
      var best := Best(n, rounds);
      if Count(last) > Count(Best(n, some)) {
        forall j | 0 <= j < |some| ensures Count(rounds[j]) < Count(best) { assert some[j] in some; }
        assert FirstBest(n, rounds, |some|);
      } else if Count(best) > 0 {
        var k :| FirstBest(n, some, k);
        forall j | 0 <= j < k ensures Count(rounds[j]) < Count(best) { assert rounds[j] == some[j]; }
        assert FirstBest(n, rounds, k);
      }
    }
  }

  class FPHost {
    const timed: nat
    const responses: array<Option<Response>>
    const aux: array<Option<Response>>
    const sent: array<Option<int>>
    const failed: array<bool>
    const retransmissions: array<nat>
    var done: bool
    ghost var rounds: seq<Answers>

    ghost predicate Shape() {
      && timed <= responses.Length && aux.Length == timed
      && sent.Length == failed.Length == retransmissions.Length == responses.Length
      && responses != aux
    }

    /** The answers of the round that is open. */
    ghost function Current(): Answers
      requires Shape()
      reads responses
    {
      responses[..timed]
    }

    /** The best closed round is kept aside until the end. */
    ghost predicate Valid()
      reads this, responses, aux
    {
      && Shape() && (forall r :: r in rounds ==> |r| == timed)
      && (!done ==> aux[..] == Best(timed, rounds))
    }

    constructor (timed: nat, total: nat)
      requires timed <= total
      ensures Valid() && !done && rounds == [] && this.timed == timed && responses.Length == total
      ensures Current() == NoAnswers(timed)
      ensures fresh(responses) && fresh(aux) && fresh(sent) && fresh(failed) && fresh(retransmissions)
    {
      this.timed := timed;
      responses := new Option<Response>[total](_ => None);
      aux := new Option<Response>[timed](_ => None);
      sent := new Option<int>[total](_ => None);
      failed := new bool[total](_ => false);
      retransmissions := new nat[total](_ => 0);
      done := false;
      rounds := [];
    }

    /** Timed probe `i` has been out too long, and may be sent again. */
    predicate TimedOut(i: nat, now: int, rto: int, maxTries: nat)
      requires Shape() && i < timed
      reads responses, sent, failed, retransmissions
    {
      && responses[i].None? && sent[i].Some? && !failed[i]
      && now - sent[i].value >= rto && retransmissions[i] < maxTries
    }

    /** Timed probe `i` has been out too long, and may not be sent again. */
    predicate OutOfTries(i: nat, now: int, rto: int, maxTries: nat)
      requires Shape() && i < timed
      reads responses, sent, retransmissions
    {
      && responses[i].None? && sent[i].Some?
      && now - sent[i].value >= rto && retransmissions[i] >= maxTries
    }

    /** No probe up to `i` waits to be sent. */
    predicate AllSentUpTo(i: nat)
      requires Shape() && i < timed
      reads responses, sent
    {
      forall j :: 0 <= j <= i ==> responses[j].Some? || sent[j].Some?
    }

    /** Every timed probe was answered or timed out, and not all were answered. */
    ghost predicate RoundOver(now: int, rto: int, maxTries: nat)
      requires Shape()
      reads responses, sent, failed, retransmissions
    {
      && (forall i :: 0 <= i < timed ==> responses[i].Some? || TimedOut(i, now, rto, maxTries))
      && exists i :: 0 <= i < timed && responses[i].None?
    }

    /** Probe `i` is sent, or found to have failed when it cannot be.  The round of a timed probe is not
        over before the time that it may be out has passed, and just then it is timed out or out of tries. */
    method Send(i: nat, now: int, ok: bool)
      requires Valid() && i < responses.Length
      modifies sent, failed
      ensures Valid() && sent[..] == old(sent[..])[i := Some(now)]
      ensures failed[..] == old(failed[..])[i := old(failed[i]) || !ok]
      ensures i < timed && responses[i].None? ==>
                forall later, rto, maxTries :: later - now < rto || !ok ==> !RoundOver(later, rto, maxTries)
      ensures i < timed && responses[i].None? ==>
                forall later, rto, maxTries ::
                  (TimedOut(i, later, rto, maxTries) || OutOfTries(i, later, rto, maxTries) <==>
                   later - now >= rto && (failed[i] ==> retransmissions[i] >= maxTries))
    {
      if !ok { failed[i] := true; }
      sent[i] := Some(now);
    }

    /** Looks at the timed probes: counts the answered ones and those that timed out, and marks as
        failed those out of retransmissions.  `waiting`: some probe has not been sent yet. */
    method CountTimedProbes(now: int, rto: int, maxTries: nat)
        returns (waiting: bool, timedFailed: bool, answered: nat, timedOut: nat)
      requires Valid()
      modifies failed
      ensures Valid()
      ensures !waiting && !timedFailed && timedOut > 0 && answered + timedOut == timed <==>
              old(RoundOver(now, rto, maxTries))
      ensures forall i :: 0 <= i < failed.Length ==>
                (failed[i] <==> old(failed[i]) || (i < timed && OutOfTries(i, now, rto, maxTries) && AllSentUpTo(i)))
    {
      waiting, timedFailed, answered, timedOut := false, false, 0, 0;
      ghost var others := 0;
      var i := 0;
      while i < timed
        invariant i <= timed && !waiting && answered + timedOut + others == i
        invariant forall j :: i <= j < failed.Length ==> failed[j] == old(failed[j])
        invariant forall j :: 0 <= j < i ==> (failed[j] <==> old(failed[j]) || OutOfTries(j, now, rto, maxTries))
        invariant forall j :: 0 <= j < i ==> responses[j].Some? || sent[j].Some?
        invariant others == 0 <==> forall j :: 0 <= j < i ==> responses[j].Some? || old(TimedOut(j, now, rto, maxTries))
        invariant timedFailed ==> others > 0
        invariant answered == i <==> forall j :: 0 <= j < i ==> responses[j].Some?
      {
        if responses[i].Some? {
          answered := answered + 1;
        } else if sent[i].None? {
          waiting := true;
          return;
        } else if failed[i] {
          timedFailed := true;
          others := others + 1;
        } else if now - sent[i].value >= rto {
          if retransmissions[i] >= maxTries {
            failed[i] := true;
            others := others + 1;
          } else {
            timedOut := timedOut + 1;
          }
        } else {
          others := others + 1;
        }
        i := i + 1;
      }
    }

    /** Numbers of responses kept aside and received now. */
    method CountResponses() returns (stored: nat, now: nat)
      requires Shape()
      ensures stored == Count(aux[..]) && now == Count(Current())
    {
      stored, now := 0, 0;
      var j := 0;
      while j < timed
        invariant j <= timed
        invariant stored == Count(aux[..j]) && now == Count(responses[..j])
      {
        assert aux[..j + 1][..j] == aux[..j] && responses[..j + 1][..j] == responses[..j];
        if aux[j].Some? { stored := stored + 1; }
        if responses[j].Some? { now := now + 1; }
        j := j + 1;
      }
      assert aux[..timed] == aux[..];
    }

    /** Closes the round when it is over: the better set is kept, and all timed probes are sent again. */
    method CheckTimedProbes(now: int, rto: int, maxTries: nat) returns (closed: bool)
      requires Valid() && !done
      modifies this`rounds, responses, aux, failed, retransmissions
      ensures Valid()
      ensures closed <==> timed > 0 && old(RoundOver(now, rto, maxTries))
      ensures closed ==> rounds == old(rounds) + [old(Current())] && Current() == NoAnswers(timed)
      ensures !closed ==> rounds == old(rounds) && Current() == old(Current())
      ensures responses[timed..] == old(responses[timed..])
      ensures forall i :: 0 <= i < failed.Length ==>
                (failed[i] <==>
                   old(failed[i]) || (i < timed && old(OutOfTries(i, now, rto, maxTries) && AllSentUpTo(i))))
      ensures forall i :: 0 <= i < retransmissions.Length ==>
                retransmissions[i] == old(retransmissions[i]) + if closed && i < timed then 1 else 0
    {
      closed := false;
      if timed == 0 { return; }
      var waiting, timedFailed, answered, timedOut := CountTimedProbes(now, rto, maxTries);
      if waiting { return; }
      if !timedFailed && timedOut > 0 && answered + timedOut == timed {
        closed := true;
        CloseRound();
        Retransmit();
      }
    }

    method CloseRound()
      requires Valid() && !done
      modifies this`rounds, responses, aux
      ensures Valid() && rounds == old(rounds) + [old(Current())]
      ensures Current() == NoAnswers(timed) && responses[timed..] == old(responses[timed..])
    {
      var stored, now := CountResponses();
      PutAside(now > stored);
      rounds := rounds + [old(Current())];
      assert rounds[..|rounds| - 1] == old(rounds);
    }

    /** Empties the current set, moving it to the stored one if it is the better. */
    method PutAside(better: bool)
      requires Shape()
      modifies responses, aux
      ensures Current() == NoAnswers(timed) && responses[timed..] == old(responses[timed..])
      ensures aux[..] == if better then old(Current()) else old(aux[..])
    {
      var k := 0;
      while k < timed
        invariant k <= timed
        invariant forall j :: 0 <= j < k ==> responses[j] == None
        invariant forall j :: k <= j < responses.Length ==> responses[j] == old(responses[j])
        invariant forall j :: 0 <= j < timed ==> aux[j] == if better && j < k then old(responses[j]) else old(aux[j])
      {
        if better { aux[k] := responses[k]; }
        responses[k] := None;
        k := k + 1;
      }
    }

    method Retransmit()
      requires Shape()
      modifies retransmissions
      ensures forall i :: 0 <= i < retransmissions.Length ==>
                retransmissions[i] == old(retransmissions[i]) + if i < timed then 1 else 0
    {
      var l := 0;
      while l < timed
        invariant l <= timed
        invariant forall i :: 0 <= i < retransmissions.Length ==>
                    retransmissions[i] == old(retransmissions[i]) + if i < l then 1 else 0
      {
        retransmissions[l] := retransmissions[l] + 1;
        l := l + 1;
      }
    }

    /** A captured packet is stored as the response of the first probe that it answers and that has
        no response yet. */
    method Callback(packet: Packet, probesSent: nat, isResponse: nat -> bool) returns (found: bool)
      requires Valid() && probesSent <= responses.Length
      modifies responses
      ensures Valid()
      ensures found <==> !done && exists i :: 0 <= i < probesSent && old(responses[i]).None? && isResponse(i)
      ensures !found ==> responses[..] == old(responses[..])
      ensures found ==>
                exists i :: 0 <= i < probesSent && old(responses[i]).None? && isResponse(i)
                  && responses[..] == old(responses[..])[i := Some(Response(i, packet))]
                  && forall j :: 0 <= j < i ==> old(responses[j]).Some? || !isResponse(j)
    {
      found := false;
      if done { return; }
      var i := 0;
      while i < probesSent
        invariant i <= probesSent && responses[..] == old(responses[..])
        invariant forall j :: 0 <= j < i ==> responses[j].Some? || !isResponse(j)
      {
        if responses[i].None? && isResponse(i) {
          responses[i] := Some(Response(i, packet));
          found := true;
          return;
        }
        i := i + 1;
      }
    }

    /** The end of the detection: what is left is the set of one whole round, and no round, closed or
        open, held more answers. */
    method SetDoneAndWrapUp()
      requires Valid() && !done
      modifies this`done, responses, aux
      ensures Valid() && done && aux[..] == NoAnswers(timed)
      ensures responses[timed..] == old(responses[timed..])
      ensures Current() in rounds + [old(Current())]
      ensures forall r :: r in rounds + [old(Current())] ==> Count(r) <= Count(Current())
    {
      var stored, current := CountResponses();
      done := true;
      BestIsLargest(timed, rounds);
      if stored > current { NothingStored(timed, rounds, Current()); }
      TakeBack(stored > current);
    }

    /** Empties the stored set, putting it in place of the current one if `stored` is the better. */
    method TakeBack(stored: bool)
      requires Shape()
      modifies responses, aux
      ensures aux[..] == NoAnswers(timed) && responses[timed..] == old(responses[timed..])
      ensures Current() == if stored then old(aux[..]) else old(Current())
    {
      var i := 0;
      while i < timed
        invariant i <= timed
        invariant forall j :: 0 <= j < i ==> aux[j] == None
        invariant forall j :: i <= j < timed ==> aux[j] == old(aux[j])
        invariant forall j :: 0 <= j < responses.Length ==>
                    responses[j] == if stored && j < i then old(aux[j]) else old(responses[j])
      {
        if stored { responses[i] := aux[i]; }
        aux[i] := None;
        i := i + 1;
      }
    }
  }

  /** When there is nothing in any closed round the current set stays. */
  lemma NothingStored(n: nat, rounds: seq<Answers>, current: Answers)
    requires Count(Best(n, rounds)) > Count(current)
    ensures Best(n, rounds) in rounds
  {
    BestIsLargest(n, rounds);
    NoAnswersCount(n);
  }
}
