/** Deleting expired facts: exactly when nobody can tell the store from one that keeps everything. */
module Forgetting {
  import opened Basics
  import opened Envelopes
  import opened Registers

  /** A step of the fact store; with `forget` off, collection leaves the facts alone. */
  function FactStep(m: Facts, ev: Event, forget: bool): Facts {
    match ev
    case Deliver(e, at) => ApplyFact(m, e, at)
    case Collect(at) => if forget then CollectFacts(m, at) else m
  }

  function RunFacts(m: Facts, evs: seq<Event>, forget: bool): Facts {
    if evs == [] then m else FactStep(RunFacts(m, evs[..|evs| - 1], forget), evs[|evs| - 1], forget)
  }

  /** What the callers of `ApplyFact` are told over the whole run. */
  function Answers(m: Facts, evs: seq<Event>, forget: bool): seq<Answer<FactState>> {
    if evs == [] then []
    else
      var front, last := evs[..|evs| - 1], evs[|evs| - 1];
      Answers(m, front, forget)
      + if last.Deliver? then [FactAnswer(RunFacts(m, front, forget), last.env, last.at)] else []
  }

  ghost predicate ClockOrdered(evs: seq<Event>) {
    forall i, j :: 0 <= i < j < |evs| ==> evs[i].at <= evs[j].at
  }

  function Clock(evs: seq<Event>): Time {
    if evs == [] then 0 else evs[|evs| - 1].at
  }

  ghost predicate DrawnFrom(evs: seq<Event>, S: set<Envelope>) {
    forall ev :: ev in evs && ev.Deliver? ==> ev.env in S
  }

  /** For each fact, a sequence number that is not smaller does not expire earlier. */
  ghost predicate ExpiryFollowsSeq(S: set<Envelope>) {
    forall e, f :: e in S && f in S && SameFactNotNewer(e, f) ==> e.expiresAt <= f.expiresAt
  }

  predicate SameFactNotNewer(e: Envelope, f: Envelope) {
    e.kind.KindAgentFact? && f.kind.KindAgentFact? && FactKey(e) == FactKey(f) && e.seqNo <= f.seqNo
  }

  /** The forgetting store answers like the keeping one and holds the same unexpired facts. */
  ghost predicate Indistinguishable(evs: seq<Event>) {
    && Answers(map[], evs, true) == Answers(map[], evs, false)
    && (forall t :: t >= Clock(evs) ==>
          CollectFacts(RunFacts(map[], evs, true), t) == CollectFacts(RunFacts(map[], evs, false), t))
  }

  ghost predicate NeverNoticed(S: set<Envelope>) {
    forall evs :: ClockOrdered(evs) && DrawnFrom(evs, S) ==> Indistinguishable(evs)
  }

  /** The forgetting store holds a part of the keeping one, and lacks only what has expired. */
  ghost predicate Simulates(del: Facts, keep: Facts, now: Time, S: set<Envelope>) {
    && FactsMatch(keep)
    && (forall k :: k in keep ==> keep[k].envelope in S)
    && (forall k :: k in del ==> k in keep && del[k] == keep[k])
    && (forall k :: k in keep && k !in del ==> keep[k].expiresAt < now)
  }

  lemma SimulationStep(del: Facts, keep: Facts, now: Time, S: set<Envelope>, ev: Event)
    requires ExpiryFollowsSeq(S) && Simulates(del, keep, now, S)
    requires now <= ev.at && (ev.Deliver? ==> ev.env in S)
    ensures Simulates(FactStep(del, ev, true), FactStep(keep, ev, false), ev.at, S)
    ensures ev.Deliver? ==> FactAnswer(del, ev.env, ev.at) == FactAnswer(keep, ev.env, ev.at)
  {
    if ev.Deliver? {
      ForgottenIsOld(del, keep, now, S, ev.env, ev.at);
    }
  }

  /** A forgotten record would not have stopped an unexpired envelope anyway. */
  lemma ForgottenIsOld(del: Facts, keep: Facts, now: Time, S: set<Envelope>, e: Envelope, at: Time)
    requires ExpiryFollowsSeq(S) && Simulates(del, keep, now, S) && e in S && now <= at
    ensures FactVerdict(Lookup(del, FactKey(e)), e, at) == FactVerdict(Lookup(keep, FactKey(e)), e, at)
    ensures FactVerdict(Lookup(keep, FactKey(e)), e, at) != Applied ==>
              FactAnswer(del, e, at) == FactAnswer(keep, e, at)
  {}

  lemma {:induction false} Simulation(evs: seq<Event>, S: set<Envelope>)
    requires ExpiryFollowsSeq(S) && ClockOrdered(evs) && DrawnFrom(evs, S)
    ensures Simulates(RunFacts(map[], evs, true), RunFacts(map[], evs, false), Clock(evs), S)
    ensures Answers(map[], evs, true) == Answers(map[], evs, false)
  {
    if evs != [] {
      var front, last := evs[..|evs| - 1], evs[|evs| - 1];
      assert evs == front + [last];
      Simulation(front, S);
      SimulationStep(RunFacts(map[], front, true), RunFacts(map[], front, false), Clock(front), S, last);
    }
  }

  /** Forgetting is never noticed, on any run with a clock that does not go back, exactly when
      expiry follows the sequence numbers. */
  lemma ForgettingExact(S: set<Envelope>)
    ensures NeverNoticed(S) <==> ExpiryFollowsSeq(S)
  {
    if ExpiryFollowsSeq(S) {
      forall evs | ClockOrdered(evs) && DrawnFrom(evs, S) ensures Indistinguishable(evs) {
        Simulation(evs, S);
      }
    } else {
      var e, f :| e in S && f in S && SameFactNotNewer(e, f) && e.expiresAt > f.expiresAt;
      var evs := [Deliver(f, f.expiresAt), Collect(e.expiresAt), Deliver(e, e.expiresAt)];
      ForgottenFactReturns(e, f);
      assert ClockOrdered(evs) && DrawnFrom(evs, S);
    }
  }

  /** A fact that is deleted early comes back with an old sequence number. */
  lemma ForgottenFactReturns(e: Envelope, f: Envelope)
    requires SameFactNotNewer(e, f) && e.expiresAt > f.expiresAt
    ensures var evs := [Deliver(f, f.expiresAt), Collect(e.expiresAt), Deliver(e, e.expiresAt)];
            && !Indistinguishable(evs)
            && Lookup(RunFacts(map[], evs, true), FactKey(e)) == Some(FactRecord(e, e.expiresAt))
            && Lookup(RunFacts(map[], evs, false), FactKey(e)) == Some(FactRecord(f, f.expiresAt))
  {
    var evs := [Deliver(f, f.expiresAt), Collect(e.expiresAt), Deliver(e, e.expiresAt)];
    var one, two := evs[..1], evs[..2];
    assert two[..1] == one && one[..0] == [];
    var held := map[FactKey(f) := FactRecord(f, f.expiresAt)];
    assert RunFacts(map[], one, true) == held && RunFacts(map[], one, false) == held;
    assert RunFacts(map[], two, true) == map[] && RunFacts(map[], two, false) == held;
    assert Answers(map[], one, true) == Answers(map[], one, false) by {
      assert Answers(map[], one[..0], true) == Answers(map[], one[..0], false);
    }
    assert Answers(map[], two, true) == Answers(map[], one, true);
    assert Answers(map[], two, false) == Answers(map[], one, false);
    assert Answers(map[], evs, true)[|Answers(map[], two, true)|].verdict == Applied;
    assert Answers(map[], evs, false)[|Answers(map[], two, false)|].verdict == ReplayOrOld;
  }

  /** Deletion also restarts numbering: after the owner's collection the next fact has number 1, and a
      replica takes it exactly when it has no record of the fact left, that is, when its own collection
      came after the expiry of the record it held. */
  lemma RestartTakenExact(owner: Facts, replica: Facts, now: Time, swept: Time, e: Envelope, at: Time)
    requires e.kind.KindAgentFact? && at <= e.expiresAt
    requires FactKey(e) in owner && now > owner[FactKey(e)].expiresAt
    requires e.seqNo == NextFactSeq(CollectFacts(owner, now), e.origin, e.factID)
    requires FactKey(e) in replica && replica[FactKey(e)].lastSeq != 0
    ensures FactVerdict(Lookup(replica, FactKey(e)), e, at) == ReplayOrOld
    ensures FactVerdict(Lookup(CollectFacts(replica, swept), FactKey(e)), e, at) == Applied
            <==> swept > replica[FactKey(e)].expiresAt
  {}
}
