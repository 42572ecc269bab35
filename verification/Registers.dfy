/** Task and fact records: the decision made for each envelope, expiry, and runs of both. */
module Registers {
  import opened Basics
  import opened Envelopes

  datatype TaskStatus = ACTIVE | COMPLETE | WITHDRAWN | EXPIRED

  datatype TaskState = TaskState(
    key: string, origin: string, taskID: string, lastSeq: uint64, status: TaskStatus,
    envelope: Envelope, updatedAt: Time, expiresAt: Time)

  datatype FactState = FactState(
    key: string, origin: string, factID: string, factKind: string, lastSeq: uint64,
    envelope: Envelope, updatedAt: Time, expiresAt: Time)

  type Tasks = map<string, TaskState>
  type Facts = map<string, FactState>

  /** Why an envelope was or was not applied. */
  datatype Verdict = NotThisKind | Stale | Terminal | ReplayOrOld | Applied

  /** `taskKey` and `factKey`. */
  function RecordKey(origin: string, id: string): string {
    origin + "::" + id
  }

  function TaskKey(e: Envelope): string {
    RecordKey(e.origin, e.taskID)
  }

  function FactKey(e: Envelope): string {
    RecordKey(e.origin, e.factID)
  }

  /** Two origins can share a record key exactly when one of them, with the separator behind it, is how
      the other begins. */
  lemma SharedKeyExact(o1: string, o2: string)
    ensures (exists id1, id2 :: RecordKey(o1, id1) == RecordKey(o2, id2))
            <==> o1 + "::" <= o2 + "::" || o2 + "::" <= o1 + "::"
  {
    if id1, id2 :| RecordKey(o1, id1) == RecordKey(o2, id2) {
      KeyBegins(o1, id1, o2, id2);
    }
    if o1 + "::" <= o2 + "::" {
      assert RecordKey(o1, (o2 + "::")[|o1| + 2..]) == RecordKey(o2, "");
    }
    if o2 + "::" <= o1 + "::" {
      assert RecordKey(o1, "") == RecordKey(o2, (o1 + "::")[|o2| + 2..]);
    }
  }

  lemma KeyBegins(o1: string, id1: string, o2: string, id2: string)
    requires RecordKey(o1, id1) == RecordKey(o2, id2)
    ensures o1 + "::" <= o2 + "::" || o2 + "::" <= o1 + "::"
  {
    var k := RecordKey(o1, id1);
    assert o1 + "::" == k[..|o1| + 2] && o2 + "::" == k[..|o2| + 2];
  }

  /** One separable origin begins another in this way only if they are equal. */
  lemma SeparableBegins(o1: string, o2: string)
    requires Separable(o2) && o1 + "::" <= o2 + "::"
    ensures o1 == o2
  {
    var s, t := o1 + "::", o2 + "::";
    assert t[|o1|] == s[|o1|] == ':' && t[|o1| + 1] == s[|o1| + 1] == ':';
    assert |o1| == |o2|;
    assert o1 == s[..|o1|] == t[..|o1|] == o2;
  }

  /** Separable origins never share a record key. */
  lemma RecordKeyInjective(o1: string, id1: string, o2: string, id2: string)
    requires Separable(o1) && Separable(o2)
    requires RecordKey(o1, id1) == RecordKey(o2, id2)
    ensures o1 == o2 && id1 == id2
  {
    KeyBegins(o1, id1, o2, id2);
    if o1 + "::" <= o2 + "::" {
      SeparableBegins(o1, o2);
    } else {
      SeparableBegins(o2, o1);
    }
    assert id1 == RecordKey(o1, id1)[|o1| + 2..] && id2 == RecordKey(o2, id2)[|o2| + 2..];
  }

  // ---------------------------------------------------------------- tasks

  predicate TerminalOp(op: TaskOp) {
    op.OpComplete? || op.OpWithdraw?
  }

  predicate TerminalStatus(s: TaskStatus) {
    s.COMPLETE? || s.WITHDRAWN?
  }

  function StatusOf(op: TaskOp): (s: TaskStatus)
    ensures s != EXPIRED
    ensures (s == COMPLETE <==> op == OpComplete) && (s == WITHDRAWN <==> op == OpWithdraw)
  {
    match op case OpComplete => COMPLETE case OpWithdraw => WITHDRAWN case _ => ACTIVE
  }

  function TaskVerdict(current: Option<TaskState>, e: Envelope, now: Time): Verdict {
    if !e.kind.KindTask? then NotThisKind
    else if now > e.expiresAt then Stale
    else if current.Some? && TerminalStatus(current.value.status) then Terminal
    else if current.Some? && e.seqNo <= current.value.lastSeq then ReplayOrOld
    else Applied
  }

  function TaskRecord(e: Envelope, now: Time): TaskState {
    TaskState(TaskKey(e), e.origin, e.taskID, e.seqNo, StatusOf(e.op), e, now, e.expiresAt)
  }

  function ApplyTask(m: Tasks, e: Envelope, now: Time): Tasks {
    if TaskVerdict(Lookup(m, TaskKey(e)), e, now) == Applied then m[TaskKey(e) := TaskRecord(e, now)] else m
  }

  /** Which answer a task envelope gets, and why. */
  lemma TaskVerdictExact(current: Option<TaskState>, e: Envelope, now: Time)
    ensures var v := TaskVerdict(current, e, now);
            var closed := current.Some? && current.value.status in {COMPLETE, WITHDRAWN};
            && (v == NotThisKind <==> e.kind != KindTask)
            && (v == Stale <==> e.kind == KindTask && now > e.expiresAt)
            && (v == Terminal <==> e.kind == KindTask && now <= e.expiresAt && closed)
            && (v == ReplayOrOld <==>
                  && e.kind == KindTask && now <= e.expiresAt && !closed
                  && current.Some? && e.seqNo <= current.value.lastSeq)
            && (v == Applied <==>
                  && e.kind == KindTask && now <= e.expiresAt && !closed
                  && (current.Some? ==> e.seqNo > current.value.lastSeq))
  {}

  /** A task record says what its envelope says, was received `now`, and is marked by the operation. */
  ghost predicate TaskSays(t: TaskState, e: Envelope, now: Time) {
    && t.key == e.origin + "::" + e.taskID && t.origin == e.origin && t.taskID == e.taskID && t.lastSeq == e.seqNo
    && t.envelope == e && t.updatedAt == now && t.expiresAt == e.expiresAt
    && t.status == match e.op case OpComplete => COMPLETE case OpWithdraw => WITHDRAWN case _ => ACTIVE
  }

  /** An applied task envelope is what its key holds afterwards; nothing else changes. */
  lemma AppliedTask(m: Tasks, e: Envelope, now: Time)
    ensures var k := e.origin + "::" + e.taskID; var m' := ApplyTask(m, e, now);
            && (forall j :: j != k ==> Lookup(m', j) == Lookup(m, j))
            && if TaskVerdict(Lookup(m, k), e, now) == Applied then k in m' && TaskSays(m'[k], e, now) else m' == m
  {}

  function ExpireTask(t: TaskState, now: Time): TaskState {
    if now > t.expiresAt then t.(status := EXPIRED) else t
  }

  function CollectTasks(m: Tasks, now: Time): Tasks {
    map k | k in m :: ExpireTask(m[k], now)
  }

  /** `NextTaskSeq` and `NextFactSeq`, given the last sequence number stored for the key. */
  function NextSeq(last: Option<uint64>): uint64 {
    match last case Some(n) => Increment(n) case None => 1
  }

  function NextTaskSeq(m: Tasks, origin: string, id: string): uint64 {
    var k := RecordKey(origin, id);
    NextSeq(if k in m then Some(m[k].lastSeq) else None)
  }

  /** Everything a record repeats from its envelope agrees with it. */
  ghost predicate TaskMatches(t: TaskState, k: string) {
    && t.key == k == TaskKey(t.envelope) && t.envelope.kind.KindTask?
    && t.origin == t.envelope.origin && t.taskID == t.envelope.taskID
    && t.lastSeq == t.envelope.seqNo && t.expiresAt == t.envelope.expiresAt
    && t.status in {StatusOf(t.envelope.op), EXPIRED}
  }

  ghost predicate TasksMatch(m: Tasks) {
    forall k :: k in m ==> TaskMatches(m[k], k)
  }

  // ---------------------------------------------------------------- facts

  function FactVerdict(current: Option<FactState>, e: Envelope, now: Time): Verdict {
    if !e.kind.KindAgentFact? then NotThisKind
    else if now > e.expiresAt then Stale
    else if current.Some? && e.seqNo <= current.value.lastSeq then ReplayOrOld
    else Applied
  }

  function FactRecord(e: Envelope, now: Time): FactState {
    FactState(FactKey(e), e.origin, e.factID, e.factKind, e.seqNo, e, now, e.expiresAt)
  }

  function ApplyFact(m: Facts, e: Envelope, now: Time): Facts {
    if FactVerdict(Lookup(m, FactKey(e)), e, now) == Applied then m[FactKey(e) := FactRecord(e, now)] else m
  }

  /** Which answer a fact envelope gets, and why. */
  lemma FactVerdictExact(current: Option<FactState>, e: Envelope, now: Time)
    ensures var v := FactVerdict(current, e, now);
            && (v == NotThisKind <==> e.kind != KindAgentFact)
            && (v == Stale <==> e.kind == KindAgentFact && now > e.expiresAt)
            && v != Terminal
            && (v == ReplayOrOld <==>
                  e.kind == KindAgentFact && now <= e.expiresAt && current.Some? && e.seqNo <= current.value.lastSeq)
            && (v == Applied <==>
                  e.kind == KindAgentFact && now <= e.expiresAt && (current.Some? ==> e.seqNo > current.value.lastSeq))
  {}

  ghost predicate FactSays(f: FactState, e: Envelope, now: Time) {
    && f.key == e.origin + "::" + e.factID && f.origin == e.origin && f.factID == e.factID && f.factKind == e.factKind
    && f.lastSeq == e.seqNo && f.envelope == e && f.updatedAt == now && f.expiresAt == e.expiresAt
  }

  lemma AppliedFact(m: Facts, e: Envelope, now: Time)
    ensures var k := e.origin + "::" + e.factID; var m' := ApplyFact(m, e, now);
            && (forall j :: j != k ==> Lookup(m', j) == Lookup(m, j))
            && if FactVerdict(Lookup(m, k), e, now) == Applied then k in m' && FactSays(m'[k], e, now) else m' == m
  {}

  function CollectFacts(m: Facts, now: Time): Facts {
    map k | k in m && now <= m[k].expiresAt :: m[k]
  }

  function NextFactSeq(m: Facts, origin: string, id: string): uint64 {
    var k := RecordKey(origin, id);
    NextSeq(if k in m then Some(m[k].lastSeq) else None)
  }

  ghost predicate FactMatches(f: FactState, k: string) {
    && f.key == k == FactKey(f.envelope) && f.envelope.kind.KindAgentFact?
    && f.origin == f.envelope.origin && f.factID == f.envelope.factID && f.factKind == f.envelope.factKind
    && f.lastSeq == f.envelope.seqNo && f.expiresAt == f.envelope.expiresAt
  }

  ghost predicate FactsMatch(m: Facts) {
    forall k :: k in m ==> FactMatches(m[k], k)
  }

  /** What an apply call reports: the record it returns, if any, and its reason. */
  datatype Answer<+T> = Answer(state: Option<T>, verdict: Verdict)

  function TaskAnswer(m: Tasks, e: Envelope, now: Time): Answer<TaskState> {
    var v := TaskVerdict(Lookup(m, TaskKey(e)), e, now);
    Answer(if v in {NotThisKind, Stale} then None else Lookup(ApplyTask(m, e, now), TaskKey(e)), v)
  }

  function FactAnswer(m: Facts, e: Envelope, now: Time): Answer<FactState> {
    var v := FactVerdict(Lookup(m, FactKey(e)), e, now);
    Answer(if v in {NotThisKind, Stale} then None else Lookup(ApplyFact(m, e, now), FactKey(e)), v)
  }

  // ---------------------------------------------------------------- origins

  /** An envelope of one separable origin changes no record of another. */
  lemma OriginIsolation(tasks: Tasks, facts: Facts, e: Envelope, now: Time, other: string, id: string)
    requires Separable(e.origin) && Separable(other) && e.origin != other
    ensures Lookup(ApplyTask(tasks, e, now), RecordKey(other, id)) == Lookup(tasks, RecordKey(other, id))
    ensures Lookup(ApplyFact(facts, e, now), RecordKey(other, id)) == Lookup(facts, RecordKey(other, id))
  {
    if TaskKey(e) == RecordKey(other, id) {
      RecordKeyInjective(e.origin, e.taskID, other, id);
    }
    if FactKey(e) == RecordKey(other, id) {
      RecordKeyInjective(e.origin, e.factID, other, id);
    }
  }

  // ---------------------------------------------------------------- runs over task records

  datatype Event = Deliver(env: Envelope, at: Time) | Collect(at: Time)

  function TaskStep(m: Tasks, ev: Event): Tasks {
    match ev
    case Deliver(e, at) => ApplyTask(m, e, at)
    case Collect(at) => CollectTasks(m, at)
  }

  function RunTasks(m: Tasks, evs: seq<Event>): Tasks {
    if evs == [] then m else TaskStep(RunTasks(m, evs[..|evs| - 1]), evs[|evs| - 1])
  }

  /** The event delivers a task envelope to record `k`. */
  predicate Hits(ev: Event, k: string) {
    ev.Deliver? && ev.env.kind.KindTask? && TaskKey(ev.env) == k
  }

  /** The record only moves forward: no smaller number, and with the same number the same envelope. */
  ghost predicate Succeeds(t: TaskState, t': TaskState) {
    t.lastSeq <= t'.lastSeq && (t.lastSeq == t'.lastSeq ==> t' in {t, t.(status := EXPIRED)})
  }

  lemma TaskStepSafety(m: Tasks, ev: Event)
    requires TasksMatch(m)
    ensures TasksMatch(TaskStep(m, ev))
    ensures forall k :: k in m ==> k in TaskStep(m, ev) && Succeeds(m[k], TaskStep(m, ev)[k])
    ensures forall k :: k in m && TerminalStatus(m[k].status) && (ev.Collect? ==> ev.at <= m[k].expiresAt) ==>
              TaskStep(m, ev)[k] == m[k]
  {}

  /** Over any run no record disappears, sequence numbers never fall, an equal number means the very
      same envelope, a completed or withdrawn record stays exactly as it is until a collection later
      than its expiry, and records agree with their envelopes. */
  lemma {:induction false} TaskRunSafety(m: Tasks, evs: seq<Event>)
    requires TasksMatch(m)
    ensures TasksMatch(RunTasks(m, evs))
    ensures forall k :: k in m ==> k in RunTasks(m, evs) && Succeeds(m[k], RunTasks(m, evs)[k])
    ensures forall k :: k in m && TerminalStatus(m[k].status)
                        && (forall ev :: ev in evs && ev.Collect? ==> ev.at <= m[k].expiresAt) ==>
              RunTasks(m, evs)[k] == m[k]
  {
    if evs != [] {
      var front, last := evs[..|evs| - 1], evs[|evs| - 1];
      assert evs == front + [last];
      TaskRunSafety(m, front);
      TaskStepSafety(RunTasks(m, front), last);
    }
  }

  /** The status of a record tells its envelope's operation. */
  ghost predicate StatusTells(t: TaskState) {
    t.status != EXPIRED ==>
      && (t.status == COMPLETE <==> t.envelope.op == OpComplete)
      && (t.status == WITHDRAWN <==> t.envelope.op == OpWithdraw)
      && (t.status == ACTIVE <==> t.envelope.op != OpComplete && t.envelope.op != OpWithdraw)
  }

  /** Over any run, a record that is not expired is complete exactly if its envelope is a completion,
      withdrawn exactly if it is a withdrawal, and active otherwise. */
  lemma {:induction false} RunStatusTells(m: Tasks, evs: seq<Event>)
    requires forall k :: k in m ==> StatusTells(m[k])
    ensures forall k :: k in RunTasks(m, evs) ==> StatusTells(RunTasks(m, evs)[k])
  {
    if evs != [] {
      RunStatusTells(m, evs[..|evs| - 1]);
    }
  }

  /** A collection later than the expiry of record `k` of `m`. */
  ghost predicate LateCollection(m: Tasks, k: string, evs: seq<Event>)
    requires k in m
  {
    exists ev :: ev in evs && ev.Collect? && ev.at > m[k].expiresAt
  }

  /** A completed or withdrawn record survives a run exactly when no collection in it is later than its
      expiry: whatever is delivered, and however often. */
  lemma {:induction false} TerminalExact(m: Tasks, k: string, evs: seq<Event>)
    requires TasksMatch(m) && k in m && TerminalStatus(m[k].status)
    ensures k in RunTasks(m, evs)
    ensures RunTasks(m, evs)[k] == m[k] <==> !LateCollection(m, k, evs)
  {
    TaskRunSafety(m, evs);
    if evs != [] {
      var front, last := evs[..|evs| - 1], evs[|evs| - 1];
      assert evs == front + [last];
      TaskRunSafety(m, front);
      TerminalExact(m, k, front);
      TaskStepSafety(RunTasks(m, front), last);
      assert LateCollection(m, k, evs) <==> LateCollection(m, k, front) || (last.Collect? && last.at > m[k].expiresAt);
    }
  }

  lemma {:induction false} NumberStays(m: Tasks, k: string, evs: seq<Event>)
    requires k in m && forall ev :: ev in evs ==> !Hits(ev, k)
    ensures k in RunTasks(m, evs)
    ensures RunTasks(m, evs)[k] == m[k] || RunTasks(m, evs)[k] == m[k].(status := EXPIRED)
  {
    if evs != [] {
      var front, last := evs[..|evs| - 1], evs[|evs| - 1];
      assert evs == front + [last];
      NumberStays(m, k, front);
      assert !Hits(last, k);
    }
  }

  /** A newer unexpired envelope of a completed or withdrawn task is taken exactly when a collection
      later than the expiry came first. */
  lemma ReopenedExact(m: Tasks, k: string, evs: seq<Event>, e: Envelope, at: Time)
    requires TasksMatch(m) && k in m && TerminalStatus(m[k].status)
    requires forall ev :: ev in evs ==> !Hits(ev, k)
    requires e.kind.KindTask? && TaskKey(e) == k && e.seqNo > m[k].lastSeq && at <= e.expiresAt
    ensures TaskVerdict(Lookup(RunTasks(m, evs), k), e, at) == Applied <==> LateCollection(m, k, evs)
  {
    TerminalExact(m, k, evs);
    NumberStays(m, k, evs);
  }
}
