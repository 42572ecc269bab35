/** Tasks across a network that reorders, repeats and drops messages. Clocks are arbitrary: every step has
    instants of its own. No other step of the node comes in between those of a publication, which is applied
    before it expires; and a node publishes nothing for a task that its own record shows as completed or
    withdrawn. */
module Replication {
  import opened Basics
  import opened Envelopes
  import opened Registers
  import opened Nodes
  import opened Convergence

  /** The task records of each node by origin name, and all that was ever published, by record key in the
      order of publication. */
  datatype Net = Net(nodes: map<string, Tasks>, sent: map<string, seq<Envelope>>)

  datatype Step =
    | Publish(node: string, peer: string, limit: int, input: TaskInput, world: World)
    | Receive(node: string, key: string, which: nat, at: Time)
    | Collection(node: string, at: Time)

  /** The envelope a publication step makes. */
  function Published(s: Net, p: Step): Envelope
    requires p.Publish? && p.node in s.nodes
  {
    TaskEnvelope(p.node, p.peer, p.limit, s.nodes[p.node], p.input, p.world)
  }

  function History(s: Net, k: string): seq<Envelope> {
    if k in s.sent then s.sent[k] else []
  }

  /** Node `d` holds the record as completed or withdrawn. */
  predicate Closed(s: Net, d: string, k: string) {
    d in s.nodes && k in s.nodes[d] && TerminalStatus(s.nodes[d][k].status)
  }

  /** Node `d` applies and sends out `e`. */
  function Announce(s: Net, d: string, e: Envelope, at: Time): Net
    requires d in s.nodes
  {
    s.(nodes := s.nodes[d := ApplyTask(s.nodes[d], e, at)],
       sent := s.sent[TaskKey(e) := History(s, TaskKey(e)) + [e]])
  }

  function Hear(s: Net, d: string, e: Envelope, at: Time): Net
    requires d in s.nodes
  {
    s.(nodes := s.nodes[d := ApplyTask(s.nodes[d], e, at)])
  }

  predicate CanPublish(s: Net, p: Step)
    requires p.Publish?
  {
    && p.node in s.nodes && ValidateUnsigned(Published(s, p)).None?
    && p.world.applied <= Published(s, p).expiresAt && !Closed(s, p.node, TaskKey(Published(s, p)))
  }

  /** A step that is not possible leaves the network as it is. */
  function Next(s: Net, p: Step): Net {
    match p
    case Publish(d, _, _, _, w) => if CanPublish(s, p) then Announce(s, d, Published(s, p), w.applied) else s
    case Receive(d, k, i, at) => if d in s.nodes && i < |History(s, k)| then Hear(s, d, History(s, k)[i], at) else s
    case Collection(d, at) => if d in s.nodes then s.(nodes := s.nodes[d := CollectTasks(s.nodes[d], at)]) else s
  }

  function Run(s: Net, steps: seq<Step>): Net {
    if steps == [] then s else Next(Run(s, steps[..|steps| - 1]), steps[|steps| - 1])
  }

  /** Nodes named by separable origins, with empty stores. */
  ghost predicate Initial(s: Net) {
    && s.sent == map[]
    && (forall d :: d in s.nodes ==> Separable(d) && s.nodes[d] == map[])
  }

  // ---------------------------------------------------------------- one record of one node

  function Cell(s: Net, d: string, k: string): Option<TaskState>
    requires d in s.nodes
  {
    Lookup(s.nodes[d], k)
  }

  function ApplyCell(c: Option<TaskState>, e: Envelope, now: Time): Option<TaskState> {
    if TaskVerdict(c, e, now) == Applied then Some(TaskRecord(e, now)) else c
  }

  lemma ApplySeen(m: Tasks, e: Envelope, now: Time, k: string)
    ensures Lookup(ApplyTask(m, e, now), k) == if TaskKey(e) == k then ApplyCell(Lookup(m, k), e, now) else Lookup(m, k)
  {}

  lemma CollectSeen(m: Tasks, now: Time, k: string)
    ensures Lookup(CollectTasks(m, now), k) ==
            match Lookup(m, k) case None => None case Some(t) => Some(ExpireTask(t, now))
  {}

  // ---------------------------------------------------------------- invariant

  /** The publications of one task: numbers 1, 2, 3, …, one origin and id. */
  ghost predicate GoodHistory(k: string, h: seq<Envelope>) {
    && h != [] && TaskKey(h[0]) == k
    && (forall i :: 0 <= i < |h| ==>
          h[i].kind.KindTask? && h[i].seqNo == i + 1 && h[i].origin == h[0].origin && h[i].taskID == h[0].taskID)
  }

  /** A record of the task is its publication of that number. */
  ghost predicate GoodRecord(t: TaskState, k: string, h: seq<Envelope>) {
    && 1 <= t.lastSeq <= |h| && t.envelope == h[t.lastSeq - 1]
    && t.key == k && t.origin == t.envelope.origin && t.taskID == t.envelope.taskID
    && t.expiresAt == t.envelope.expiresAt
    && (t.status == StatusOf(t.envelope.op) || t.status == EXPIRED)
  }

  ghost predicate GoodCell(c: Option<TaskState>, k: string, h: seq<Envelope>) {
    c.Some? ==> GoodRecord(c.value, k, h)
  }

  ghost predicate Members(s: Net) {
    forall d :: d in s.nodes ==> Separable(d)
  }

  /** Task `k`: its owner's record is its last publication, and all records are publications. */
  ghost predicate GoodTask(s: Net, k: string) {
    var h := History(s, k);
    && (h != [] ==>
          && GoodHistory(k, h) && h[0].origin in s.nodes
          && Cell(s, h[0].origin, k).Some? && Cell(s, h[0].origin, k).value.lastSeq == |h|)
    && (forall d :: d in s.nodes ==> GoodCell(Cell(s, d, k), k, h))
  }

  ghost predicate Invariant(s: Net) {
    Members(s) && forall k :: GoodTask(s, k)
  }

  /** What matters of an envelope that node `d` is about to publish. */
  ghost predicate Drafted(s: Net, d: string, e: Envelope) {
    && d in s.nodes && e.kind.KindTask? && e.origin == d
    && e.seqNo != 0 && e.seqNo == NextTaskSeq(s.nodes[d], d, e.taskID)
  }

  lemma PublishedIsDrafted(s: Net, p: Step)
    requires p.Publish? && CanPublish(s, p)
    ensures Drafted(s, p.node, Published(s, p))
  {}

  lemma OwnerUnique(k: string, h: seq<Envelope>, e: Envelope)
    requires GoodHistory(k, h) && TaskKey(e) == k && Separable(e.origin) && Separable(h[0].origin)
    ensures e.origin == h[0].origin && e.taskID == h[0].taskID
  {
    RecordKeyInjective(h[0].origin, h[0].taskID, e.origin, e.taskID);
  }

  /** The publisher's own record gives the next number, and the publication is always applied. */
  lemma PublicationApplied(s: Net, d: string, e: Envelope, at: Time, k: string)
    requires at <= e.expiresAt
    requires Members(s) && GoodTask(s, k) && TaskKey(e) == k && Drafted(s, d, e) && !Closed(s, d, k)
    ensures var h := History(s, k);
            && (h != [] ==> h[0].origin == d && h[0].taskID == e.taskID)
            && e.seqNo == |h| + 1
            && ApplyCell(Cell(s, d, k), e, at) == Some(TaskRecord(e, at))
  {
    var h := History(s, k);
    assert GoodCell(Cell(s, d, k), k, h);
    if h != [] {
      OwnerUnique(k, h, e);
    }
  }

  lemma HistoryGrows(k: string, h: seq<Envelope>, e: Envelope)
    requires h != [] ==> GoodHistory(k, h) && e.origin == h[0].origin && e.taskID == h[0].taskID
    requires e.kind.KindTask? && TaskKey(e) == k && e.seqNo == |h| + 1
    ensures GoodHistory(k, h + [e])
  {}

  lemma NewRecordGood(k: string, h: seq<Envelope>, i: nat, now: Time)
    requires GoodHistory(k, h) && i < |h|
    ensures GoodRecord(TaskRecord(h[i], now), k, h)
  {}

  lemma GoodCellLonger(c: Option<TaskState>, k: string, h: seq<Envelope>, e: Envelope)
    requires GoodCell(c, k, h)
    ensures GoodCell(c, k, h + [e])
  {}

  lemma PublishKeeps(s: Net, d: string, e: Envelope, at: Time, k: string)
    requires at <= e.expiresAt
    requires Members(s) && GoodTask(s, k) && Drafted(s, d, e) && !Closed(s, d, TaskKey(e))
    ensures GoodTask(Announce(s, d, e, at), k)
  {
    var s' := Announce(s, d, e, at);
    var h := History(s, k);
    ApplySeen(s.nodes[d], e, at, k);
    if TaskKey(e) == k {
      PublicationApplied(s, d, e, at, k);
      HistoryGrows(k, h, e);
      NewRecordGood(k, h + [e], |h|, at);
      forall c | c in s'.nodes ensures GoodCell(Cell(s', c, k), k, h + [e]) {
        GoodCellLonger(Cell(s, c, k), k, h, e);
      }
      assert (h + [e])[0].origin == d;
    } else {
      SameCells(s, s', k);
    }
  }

  /** A step that leaves the task's records and publications alone keeps it good. */
  lemma SameCells(s: Net, s': Net, k: string)
    requires GoodTask(s, k) && s'.nodes.Keys == s.nodes.Keys && History(s', k) == History(s, k)
    requires forall d :: d in s.nodes ==> Cell(s', d, k) == Cell(s, d, k)
    ensures GoodTask(s', k)
  {}

  lemma HearKeeps(s: Net, d: string, j: string, i: nat, at: Time, k: string)
    requires GoodTask(s, j) && GoodTask(s, k) && d in s.nodes && i < |History(s, j)|
    ensures GoodTask(Hear(s, d, History(s, j)[i], at), k)
  {
    var e := History(s, j)[i];
    var s' := Hear(s, d, e, at);
    assert TaskKey(e) == j;
    ApplySeen(s.nodes[d], e, at, k);
    if j == k {
      NewRecordGood(k, History(s, k), i, at);
      assert GoodCell(Cell(s, d, k), k, History(s, k));
      assert GoodCell(Cell(s', d, k), k, History(s, k));
    } else {
      SameCells(s, s', k);
    }
  }

  lemma CollectionKeeps(s: Net, d: string, at: Time, k: string)
    requires GoodTask(s, k) && d in s.nodes
    ensures GoodTask(s.(nodes := s.nodes[d := CollectTasks(s.nodes[d], at)]), k)
  {}

  lemma StepKeepsInvariant(s: Net, p: Step)
    requires Invariant(s)
    ensures Invariant(Next(s, p))
  {
    forall k ensures GoodTask(Next(s, p), k) {
      assert GoodTask(s, k);
      StepKeepsTask(s, p, k);
    }
  }

  lemma StepKeepsTask(s: Net, p: Step, k: string)
    requires Members(s) && GoodTask(s, k) && (p.Receive? ==> GoodTask(s, p.key))
    ensures GoodTask(Next(s, p), k)
  {
    match p {
      case Publish(_, _, _, _, w) =>
        if CanPublish(s, p) {
          PublishedIsDrafted(s, p);
          PublishKeeps(s, p.node, Published(s, p), w.applied, k);
        }
      case Receive(d, j, i, at) =>
        if d in s.nodes && i < |History(s, j)| {
          HearKeeps(s, d, j, i, at, k);
        }
      case Collection(d, at) =>
        if d in s.nodes {
          CollectionKeeps(s, d, at, k);
        }
    }
  }

  lemma {:induction false} RunKeepsInvariant(s: Net, steps: seq<Step>)
    requires Invariant(s)
    ensures Invariant(Run(s, steps))
  {
    if steps != [] {
      RunKeepsInvariant(s, steps[..|steps| - 1]);
      StepKeepsInvariant(Run(s, steps[..|steps| - 1]), steps[|steps| - 1]);
    }
  }

  // ---------------------------------------------------------------- main results

  /** The task was published with numbers exactly 1, 2, 3, …; its owner's record is the last of them;
      the record of any node `d` is the publication with its number, at most the owner's, and at the
      owner's number it is the owner's record. */
  ghost predicate Replicated(s: Net, k: string, d: string) {
    var h := History(s, k);
    if h == [] then d in s.nodes ==> k !in s.nodes[d]
    else
      && (forall i :: 0 <= i < |h| ==> h[i].seqNo == i + 1)
      && h[0].origin in s.nodes && k in s.nodes[h[0].origin]
      && var own := s.nodes[h[0].origin][k];
         && own.lastSeq == |h| && own.envelope == h[|h| - 1]
         && (d in s.nodes && k in s.nodes[d] ==>
               var t := s.nodes[d][k];
               && 1 <= t.lastSeq <= own.lastSeq && t.envelope == h[t.lastSeq - 1]
               && (t.lastSeq == own.lastSeq ==> SameRecord(Some(t), Some(own))))
  }

  lemma GoodTaskReplicated(s: Net, k: string, d: string)
    requires GoodTask(s, k)
    ensures Replicated(s, k, d)
  {}

  lemma InitialInvariant(init: Net)
    requires Initial(init)
    ensures Invariant(init)
  {}

  /** After any run from empty stores every task is replicated in this sense at every node. */
  lemma ReplicationSafety(init: Net, steps: seq<Step>, k: string, d: string)
    requires Initial(init)
    ensures Replicated(Run(init, steps), k, d)
  {
    InitialInvariant(init);
    RunKeepsInvariant(init, steps);
    assert GoodTask(Run(init, steps), k);
    GoodTaskReplicated(Run(init, steps), k, d);
  }

  /** The node holds the newest publication of the task. */
  ghost predicate CaughtUp(s: Net, d: string, k: string) {
    d in s.nodes && History(s, k) != [] && k in s.nodes[d] && s.nodes[d][k].lastSeq == |History(s, k)|
  }

  /** A publication leaves the task good exactly when it is applied before it expires and the publisher's own
      record is not completed or withdrawn: otherwise the node announces a number that its own record does
      not take. */
  lemma PublicationExact(s: Net, d: string, e: Envelope, at: Time)
    requires Members(s) && GoodTask(s, TaskKey(e)) && Drafted(s, d, e)
    ensures GoodTask(Announce(s, d, e, at), TaskKey(e)) <==> at <= e.expiresAt && !Closed(s, d, TaskKey(e))
  {
    var k := TaskKey(e);
    var h := History(s, k);
    if at <= e.expiresAt && !Closed(s, d, k) {
      PublishKeeps(s, d, e, at, k);
    } else {
      assert GoodCell(Cell(s, d, k), k, h);
      if h != [] {
        OwnerUnique(k, h, e);
      }
      assert Cell(Announce(s, d, e, at), d, k) == Cell(s, d, k);
      assert History(Announce(s, d, e, at), k) == h + [e] && (h + [e])[0].origin == d;
    }
  }

  /** A node that receives the newest publication is caught up afterwards exactly if it was before, or the
      publication has not expired by its clock and it holds no older one that is completed or withdrawn;
      whatever it has missed, and in whatever order the rest arrived. */
  lemma NewestCatchesUpExact(s: Net, d: string, k: string, at: Time)
    requires Invariant(s) && d in s.nodes && History(s, k) != []
    ensures CaughtUp(Next(s, Receive(d, k, |History(s, k)| - 1, at)), d, k)
            <==> CaughtUp(s, d, k) || (at <= History(s, k)[|History(s, k)| - 1].expiresAt && !Closed(s, d, k))
  {
    var h := History(s, k);
    assert GoodTask(s, k);
    assert GoodCell(Cell(s, d, k), k, h);
    ApplySeen(s.nodes[d], h[|h| - 1], at, k);
  }

  /** The record of `k` at node `d` is not lost and its number does not fall. */
  ghost predicate Forward(s: Net, s': Net, d: string, k: string) {
    && (d in s.nodes <==> d in s'.nodes)
    && |History(s, k)| <= |History(s', k)|
    && (d in s.nodes && k in s.nodes[d] ==> k in s'.nodes[d] && s.nodes[d][k].lastSeq <= s'.nodes[d][k].lastSeq)
  }

  lemma StepForward(s: Net, p: Step, d: string, k: string)
    ensures Forward(s, Next(s, p), d, k)
  {
    match p {
      case Publish(c, _, _, _, w) =>
        if CanPublish(s, p) {
          AnnounceForward(s, c, Published(s, p), w.applied, d, k);
        }
      case Receive(c, j, i, at) =>
        if c in s.nodes && i < |History(s, j)| {
          ApplySeen(s.nodes[c], History(s, j)[i], at, k);
        }
      case Collection(c, at) =>
        if c in s.nodes {
          CollectSeen(s.nodes[c], at, k);
        }
    }
  }

  lemma AnnounceForward(s: Net, c: string, e: Envelope, at: Time, d: string, k: string)
    requires c in s.nodes
    ensures Forward(s, Announce(s, c, e, at), d, k)
  {}

  lemma {:induction false} RunForward(s: Net, steps: seq<Step>, d: string, k: string)
    ensures Forward(s, Run(s, steps), d, k)
  {
    if steps != [] {
      var front := steps[..|steps| - 1];
      RunForward(s, front, d, k);
      StepForward(Run(s, front), steps[|steps| - 1], d, k);
    }
  }

  /** A node that has caught up stays equal to the owner, whatever happens, until the task is next
      published. */
  lemma CaughtUpUntilNextPublication(s: Net, steps: seq<Step>, d: string, k: string)
    requires Invariant(s) && CaughtUp(s, d, k)
    requires |History(Run(s, steps), k)| == |History(s, k)|
    ensures CaughtUp(Run(s, steps), d, k) && Replicated(Run(s, steps), k, d)
  {
    RunForward(s, steps, d, k);
    RunKeepsInvariant(s, steps);
    var s' := Run(s, steps);
    assert GoodTask(s', k);
    GoodTaskReplicated(s', k, d);
  }
}
