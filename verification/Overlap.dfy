/** Publications of one node that overlap: reading the number, storing the payload and applying the envelope
    are separate steps, and other steps of the node come in between. */
module Overlap {
  import opened Basics
  import opened Envelopes
  import opened Registers
  import opened Storage
  import opened Nodes
  import opened Publishing
  import Convergence
  import Durability

  /** The node with any number of publications in progress: the envelopes it made, in order, those whose
      payload has been stored, and the task envelopes applied so far, in order. */
  datatype Shop = Shop(clock: Time, memory: Image, drafts: seq<Envelope>, stored: set<nat>, applied: seq<Envelope>)

  function OpenShop(clock: Time): Shop {
    Shop(clock, EMPTY_IMAGE, [], {}, [])
  }

  datatype Move =
    | Wait(ns: nat)
    | Read(env: Envelope)
    | StoreDraft(which: nat, data: string, digest: string)
    | ApplyDraft(which: nat)
    | Hear(env: Envelope)
    | Sweep

  /** The node may make this envelope now, and sign it. */
  predicate MayRead(self: Self, s: Shop, e: Envelope) {
    MayDraft(self, View(s.clock, s.memory, Idle), e) && ValidateUnsigned(e).None?
  }

  function ApplyLogged(s: Shop, e: Envelope): Shop {
    s.(memory := Durability.Effect(s.memory, Offer(e), s.clock),
       applied := if TaskVerdict(Lookup(s.memory.tasks, TaskKey(e)), e, s.clock) == Applied then s.applied + [e]
                  else s.applied)
  }

  /** One move; an envelope that is not valid does not get past decoding, and a draft is applied only once
      its payload is stored. */
  function Act(self: Self, s: Shop, m: Move): Shop {
    match m
    case Wait(ns) => s.(clock := s.clock + ns)
    case Read(e) => if MayRead(self, s, e) then s.(drafts := s.drafts + [e]) else s
    case StoreDraft(i, data, digest) =>
      if i < |s.drafts| then
        var p := PayloadOf(s.drafts[i], data, digest, s.clock);
        s.(memory := Durability.Effect(s.memory, Durability.Upsert(p), s.clock), stored := s.stored + {i})
      else s
    case ApplyDraft(i) => if i < |s.drafts| && i in s.stored then ApplyLogged(s, s.drafts[i]) else s
    case Hear(e) => if ValidateUnsigned(e).None? then ApplyLogged(s, e) else s
    case Sweep => s.(memory := CollectImage(s.memory, s.clock))
  }

  function Acts(self: Self, s: Shop, ms: seq<Move>): Shop {
    if ms == [] then s else Act(self, Acts(self, s, ms[..|ms| - 1]), ms[|ms| - 1])
  }

  // ---------------------------------------------------------------- numbers applied

  /** The numbers applied for each task strictly increase. */
  ghost predicate StrictlyIncreasing(applied: seq<Envelope>) {
    forall i, j :: 0 <= i < j < |applied| && TaskKey(applied[i]) == TaskKey(applied[j]) ==>
      applied[i].seqNo < applied[j].seqNo
  }

  ghost predicate LogFits(s: Shop) {
    && StrictlyIncreasing(s.applied)
    && (forall i :: 0 <= i < |s.applied| ==>
          && TaskKey(s.applied[i]) in s.memory.tasks
          && s.applied[i].seqNo <= s.memory.tasks[TaskKey(s.applied[i])].lastSeq)
  }

  lemma ApplyLoggedFits(s: Shop, e: Envelope)
    requires LogFits(s)
    ensures LogFits(ApplyLogged(s, e))
  {
    var s' := ApplyLogged(s, e);
    assert forall i :: 0 <= i < |s.applied| ==> s'.applied[i] == s.applied[i];
    assert forall k :: k in s.memory.tasks ==>
             k in s'.memory.tasks && s.memory.tasks[k].lastSeq <= s'.memory.tasks[k].lastSeq;
  }

  /** However publications, inbound envelopes and collections interleave, at most one envelope of each
      task and number is ever applied, and the numbers applied strictly increase. */
  lemma {:induction false} OverlappingPublicationsSafe(self: Self, clock: Time, ms: seq<Move>)
    ensures LogFits(Acts(self, OpenShop(clock), ms))
  {
    if ms != [] {
      var s := Acts(self, OpenShop(clock), ms[..|ms| - 1]);
      OverlappingPublicationsSafe(self, clock, ms[..|ms| - 1]);
      match ms[|ms| - 1] {
        case ApplyDraft(i) =>
          if i < |s.drafts| && i in s.stored {
            ApplyLoggedFits(s, s.drafts[i]);
          }
        case Hear(e) =>
          ApplyLoggedFits(s, e);
        case _ =>
      }
    }
  }

  // ---------------------------------------------------------------- twins

  /** Every envelope in the making has a number. */
  ghost predicate Numbered(s: Shop) {
    forall i :: 0 <= i < |s.drafts| ==> s.drafts[i].seqNo != 0
  }

  /** No envelope of the task was applied between `s` and `t`. */
  ghost predicate Untouched(s: Shop, t: Shop, k: string) {
    forall n :: |s.applied| <= n < |t.applied| ==> TaskKey(t.applied[n]) != k
  }

  function LastNumber(m: Tasks, k: string): Option<uint64> {
    if k in m then Some(m[k].lastSeq) else None
  }

  /** The last number of a task moves exactly when an envelope of it is applied, and then upwards. */
  ghost predicate Moved(s: Shop, t: Shop, k: string) {
    var x, y := LastNumber(s.memory.tasks, k), LastNumber(t.memory.tasks, k);
    && |s.applied| <= |t.applied|
    && if Untouched(s, t, k) then y == x else y.Some? && y.value != 0 && (x.Some? ==> x.value < y.value)
  }

  lemma ApplyMoves(s: Shop, t: Shop, e: Envelope, k: string)
    requires Moved(s, t, k) && e.seqNo != 0
    ensures Moved(s, ApplyLogged(t, e), k)
  {
    var t' := ApplyLogged(t, e);
    assert forall n :: 0 <= n < |t.applied| ==> t'.applied[n] == t.applied[n];
    if t'.applied != t.applied {
      assert t'.applied[|t.applied|] == e;
      assert Untouched(s, t', k) <==> Untouched(s, t, k) && TaskKey(e) != k;
    }
  }

  lemma ActMoves(self: Self, s: Shop, t: Shop, m: Move, k: string)
    requires Numbered(t) && Moved(s, t, k)
    ensures Numbered(Act(self, t, m)) && Moved(s, Act(self, t, m), k)
  {
    match m {
      case ApplyDraft(i) =>
        if i < |t.drafts| && i in t.stored {
          ApplyMoves(s, t, t.drafts[i], k);
        }
      case Hear(e) =>
        if ValidateUnsigned(e).None? {
          ApplyMoves(s, t, e, k);
        }
      case _ =>
    }
  }

  lemma {:induction false} ActsMove(self: Self, s: Shop, ms: seq<Move>, k: string)
    requires Numbered(s)
    ensures Numbered(Acts(self, s, ms)) && Moved(s, Acts(self, s, ms), k)
  {
    if ms != [] {
      ActsMove(self, s, ms[..|ms| - 1], k);
      ActMoves(self, s, Acts(self, s, ms[..|ms| - 1]), ms[|ms| - 1], k);
    }
  }

  /** Two publications of a task get one number exactly when no envelope of the task is applied between
      their reads, whatever else the node does in between. */
  lemma TwinsExact(self: Self, s: Shop, a: Envelope, ms: seq<Move>, b: Envelope)
    requires a.kind.KindTask? && b.kind.KindTask? && a.taskID == b.taskID && Numbered(s)
    requires MayRead(self, s, a) && MayRead(self, Acts(self, Act(self, s, Read(a)), ms), b)
    ensures a.seqNo == b.seqNo <==> Untouched(s, Acts(self, Act(self, s, Read(a)), ms), TaskKey(a))
  {
    var t := Act(self, s, Read(a));
    assert a.seqNo != 0;
    ActsMove(self, t, ms, TaskKey(a));
  }

  // ---------------------------------------------------------------- twins at the replicas

  /** The two replicas hold different envelopes of one task and one number. */
  ghost predicate HoldTwins(x: Tasks, y: Tasks, k: string) {
    && TasksMatch(x) && TasksMatch(y) && k in x && k in y
    && x[k].lastSeq == y[k].lastSeq && x[k].envelope != y[k].envelope
  }

  ghost predicate Agree(x: Tasks, y: Tasks, k: string) {
    k in x && k in y && x[k].envelope == y[k].envelope
  }

  /** Replicas holding twins stay apart until both have taken a larger number, whatever each of them
      receives and whenever it collects. */
  lemma TwinsApart(x: Tasks, y: Tasks, k: string, evs: seq<Event>, evs': seq<Event>)
    requires HoldTwins(x, y, k)
    ensures Agree(RunTasks(x, evs), RunTasks(y, evs'), k) ==>
              RunTasks(x, evs)[k].lastSeq == RunTasks(y, evs')[k].lastSeq > x[k].lastSeq
  {
    TaskRunSafety(x, evs);
    TaskRunSafety(y, evs');
    assert TaskMatches(RunTasks(x, evs)[k], k) && TaskMatches(RunTasks(y, evs')[k], k);
  }

  /** One more envelope of the task makes them agree exactly when it is newer and neither record is
      completed or withdrawn. */
  lemma TwinsMeetExact(x: Tasks, y: Tasks, e: Envelope, now: Time, now': Time)
    requires HoldTwins(x, y, TaskKey(e)) && e.kind.KindTask? && now <= e.expiresAt && now' <= e.expiresAt
    ensures var k := TaskKey(e);
            Agree(ApplyTask(x, e, now), ApplyTask(y, e, now'), k)
            <==> e.seqNo > x[k].lastSeq && !TerminalStatus(x[k].status) && !TerminalStatus(y[k].status)
  {
    var k := TaskKey(e);
    assert TaskMatches(x[k], k) && TaskMatches(y[k], k);
  }

  /** Some delivery of the run brings an unexpired envelope of the task with a number above `n`. */
  ghost predicate BringsNewer(evs: seq<Event>, k: string, n: uint64) {
    exists ev :: ev in evs && Newer(ev, k, n)
  }

  predicate Newer(ev: Event, k: string, n: uint64) {
    Hits(ev, k) && ev.at <= ev.env.expiresAt && ev.env.seqNo > n
  }

  ghost predicate BothOpen(x: Tasks, y: Tasks, k: string) {
    k in x && k in y && !TerminalStatus(x[k].status) && !TerminalStatus(y[k].status)
  }

  /** Replicas that hold open twins and then see the same run agree in the end exactly when the run
      brings something newer; until then both stay open and apart. */
  lemma {:induction false} TwinsReconcileExact(x: Tasks, y: Tasks, k: string, evs: seq<Event>)
    requires HoldTwins(x, y, k) && BothOpen(x, y, k)
    ensures var x', y' := RunTasks(x, evs), RunTasks(y, evs);
            if BringsNewer(evs, k, x[k].lastSeq) then k in x' && k in y' && x'[k] == y'[k]
            else HoldTwins(x', y', k) && BothOpen(x', y', k) && x'[k].lastSeq == x[k].lastSeq
  {
    if evs != [] {
      var front, last := evs[..|evs| - 1], evs[|evs| - 1];
      assert evs == front + [last];
      TwinsReconcileExact(x, y, k, front);
      var n := x[k].lastSeq;
      assert BringsNewer(evs, k, n) <==> BringsNewer(front, k, n) || Newer(last, k, n);
      TwinsStep(RunTasks(x, front), RunTasks(y, front), k, last);
    }
  }

  lemma TwinsStep(x: Tasks, y: Tasks, k: string, ev: Event)
    requires k in x && k in y
    ensures x[k] == y[k] ==> k in TaskStep(x, ev) && k in TaskStep(y, ev) && TaskStep(x, ev)[k] == TaskStep(y, ev)[k]
    ensures HoldTwins(x, y, k) && BothOpen(x, y, k) ==>
              var x', y' := TaskStep(x, ev), TaskStep(y, ev);
              if Newer(ev, k, x[k].lastSeq) then k in x' && k in y' && x'[k] == y'[k]
              else HoldTwins(x', y', k) && BothOpen(x', y', k) && x'[k].lastSeq == x[k].lastSeq
  {
    OpenStep(x, k, ev);
    OpenStep(y, k, ev);
    if HoldTwins(x, y, k) && BothOpen(x, y, k) {
      TaskStepSafety(x, ev);
      TaskStepSafety(y, ev);
    }
  }

  /** What one event does to one record. */
  lemma OpenStep(x: Tasks, k: string, ev: Event)
    requires k in x
    ensures k in TaskStep(x, ev)
    ensures TaskStep(x, ev)[k] ==
            if ev.Collect? then ExpireTask(x[k], ev.at)
            else if Newer(ev, k, x[k].lastSeq) && !TerminalStatus(x[k].status) then TaskRecord(ev.env, ev.at)
            else x[k]
  {}

  // ---------------------------------------------------------------- twins under different schedules

  /** A run that delivers to `k` all of `S`, unexpired, and otherwise nothing above number `n`. */
  ghost predicate Catchup(S: set<Envelope>, k: string, n: uint64, evs: seq<Event>) {
    && (forall ev :: ev in evs && Hits(ev, k) ==> InSet(ev, S) || ev.env.seqNo <= n)
    && (forall e :: e in S ==> exists ev :: ev in evs && Hits(ev, k) && ev.env == e)
  }

  ghost predicate InSet(ev: Event, S: set<Envelope>) {
    ev.Deliver? && ev.env in S && ev.at <= ev.env.expiresAt
  }

  ghost predicate AllAbove(S: set<Envelope>, n: uint64) {
    forall e :: e in S ==> e.seqNo > n
  }

  /** The open record `was`, or the newest of `S` delivered so far. */
  ghost predicate Follows(t: TaskState, was: TaskState, S: set<Envelope>, k: string, evs: seq<Event>) {
    if exists ev :: ev in evs && Hits(ev, k) && ev.env in S then
      && TaskMatches(t, k) && t.envelope in S
      && (forall ev :: ev in evs && Hits(ev, k) && ev.env in S ==> ev.env.seqNo <= t.lastSeq)
    else t == was || t == was.(status := EXPIRED)
  }

  lemma FollowStep(S: set<Envelope>, k: string, m: Tasks, was: TaskState, front: seq<Event>, last: Event)
    requires Convergence.OneTask(S, k) && Convergence.TerminalOnlyNewest(S) && AllAbove(S, was.lastSeq)
    requires !TerminalStatus(was.status) && k in m && Follows(m[k], was, S, k, front)
    requires Hits(last, k) ==> InSet(last, S) || last.env.seqNo <= was.lastSeq
    ensures k in TaskStep(m, last) && Follows(TaskStep(m, last)[k], was, S, k, front + [last])
  {
    OpenStep(m, k, last);
    var evs, t := front + [last], TaskStep(m, last)[k];
    assert forall ev :: ev in evs <==> ev in front || ev == last;
    if Hits(last, k) && last.env in S {
      assert last in evs;
      if exists ev :: ev in front && Hits(ev, k) && ev.env in S {
        assert m[k].envelope in S && (TerminalStatus(m[k].status) ==> last.env.seqNo <= m[k].lastSeq);
      }
    } else if exists ev :: ev in front && Hits(ev, k) && ev.env in S {
      var ev :| ev in front && Hits(ev, k) && ev.env in S;
      assert ev in evs && m[k].envelope in S && m[k].lastSeq > was.lastSeq;
    }
  }

  lemma {:induction false} RunFollows(S: set<Envelope>, k: string, m: Tasks, evs: seq<Event>)
    requires Convergence.OneTask(S, k) && Convergence.TerminalOnlyNewest(S)
    requires k in m && AllAbove(S, m[k].lastSeq) && !TerminalStatus(m[k].status)
    requires forall ev :: ev in evs && Hits(ev, k) ==> InSet(ev, S) || ev.env.seqNo <= m[k].lastSeq
    ensures k in RunTasks(m, evs) && Follows(RunTasks(m, evs)[k], m[k], S, k, evs)
  {
    if evs != [] {
      var front, last := evs[..|evs| - 1], evs[|evs| - 1];
      assert evs == front + [last];
      RunFollows(S, k, m, front);
      FollowStep(S, k, RunTasks(m, front), m[k], front, last);
    }
  }

  /** An open record ends with the newest of the set. */
  lemma NewestFollows(S: set<Envelope>, k: string, m: Tasks, evs: seq<Event>, newest: Envelope)
    requires Convergence.OneTask(S, k) && Convergence.TerminalOnlyNewest(S)
    requires k in m && AllAbove(S, m[k].lastSeq) && !TerminalStatus(m[k].status)
    requires Catchup(S, k, m[k].lastSeq, evs) && newest in S && forall e :: e in S ==> e.seqNo <= newest.seqNo
    ensures k in RunTasks(m, evs) && RunTasks(m, evs)[k].envelope == newest
  {
    RunFollows(S, k, m, evs);
    var ev :| ev in evs && Hits(ev, k) && ev.env == newest;
    assert RunTasks(m, evs)[k].lastSeq == newest.seqNo;
  }

  /** Deliver `first`, then all of the set: an open record stays at `first` if that is terminal or newest. */
  lemma FirstFollows(S: set<Envelope>, k: string, m: Tasks, first: Envelope) returns (evs: seq<Event>)
    requires Convergence.OneTask(S, k) && first in S
    requires k in m && AllAbove(S, m[k].lastSeq) && !TerminalStatus(m[k].status)
    requires TerminalOp(first.op) || forall e :: e in S ==> e.seqNo <= first.seqNo
    ensures Catchup(S, k, m[k].lastSeq, evs)
    ensures Lookup(RunTasks(m, evs), k) == Some(TaskRecord(first, 0))
  {
    var all := Convergence.DeliverAll(S);
    var head := [Deliver(first, 0)];
    evs := head + all;
    forall e | e in S ensures exists ev :: ev in evs && Hits(ev, k) && ev.env == e {
      assert Deliver(e, 0) in evs && Hits(Deliver(e, 0), k);
    }
    Convergence.RunConcat(m, head, all);
    assert RunTasks(m, head[..0]) == m;
    assert RunTasks(m, head) == m[k := TaskRecord(first, 0)];
    Convergence.RecordStays(RunTasks(m, head), k, all);
  }

  /** Whatever the schedules of the two replicas. */
  ghost predicate AlwaysAgree(S: set<Envelope>, k: string, x: Tasks, y: Tasks)
    requires k in x
  {
    forall evs, evs' :: Catchup(S, k, x[k].lastSeq, evs) && Catchup(S, k, x[k].lastSeq, evs') ==>
      Agree(RunTasks(x, evs), RunTasks(y, evs'), k)
  }

  /** Replicas that hold open twins, and get one set of newer envelopes each in its own order, among
      repetitions, collections and anything old, always agree in the end exactly when the set is not empty
      and only its newest may be terminal. */
  lemma TwinsConvergeExact(S: set<Envelope>, k: string, x: Tasks, y: Tasks)
    requires HoldTwins(x, y, k) && BothOpen(x, y, k) && Convergence.OneTask(S, k) && AllAbove(S, x[k].lastSeq)
    ensures AlwaysAgree(S, k, x, y) <==> S != {} && Convergence.TerminalOnlyNewest(S)
  {
    if S == {} {
      assert Catchup(S, k, x[k].lastSeq, []) && !Agree(RunTasks(x, []), RunTasks(y, []), k);
    } else if Convergence.TerminalOnlyNewest(S) {
      AgreeOnNewest(S, k, x, y);
    } else {
      StuckApart(S, k, x, y);
    }
  }

  lemma AgreeOnNewest(S: set<Envelope>, k: string, x: Tasks, y: Tasks)
    requires HoldTwins(x, y, k) && BothOpen(x, y, k) && Convergence.OneTask(S, k) && AllAbove(S, x[k].lastSeq)
    requires S != {} && Convergence.TerminalOnlyNewest(S)
    ensures AlwaysAgree(S, k, x, y)
  {
    var newest := Convergence.NewestExists(S);
    forall evs, evs' | Catchup(S, k, x[k].lastSeq, evs) && Catchup(S, k, x[k].lastSeq, evs')
      ensures Agree(RunTasks(x, evs), RunTasks(y, evs'), k)
    {
      NewestFollows(S, k, x, evs, newest);
      NewestFollows(S, k, y, evs', newest);
    }
  }

  lemma StuckApart(S: set<Envelope>, k: string, x: Tasks, y: Tasks)
    requires HoldTwins(x, y, k) && BothOpen(x, y, k) && Convergence.OneTask(S, k) && AllAbove(S, x[k].lastSeq)
    requires !Convergence.TerminalOnlyNewest(S)
    ensures !AlwaysAgree(S, k, x, y)
  {
    var stuck, above :| stuck in S && above in S && TerminalOp(stuck.op) && stuck.seqNo < above.seqNo;
    var newest := Convergence.NewestExists(S);
    var evs := FirstFollows(S, k, x, newest);
    var evs' := FirstFollows(S, k, y, stuck);
    assert !Agree(RunTasks(x, evs), RunTasks(y, evs'), k);
  }
}
