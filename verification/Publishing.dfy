/** One node publishing: its payloads stay in step with its records, step by step and across crashes. */
module Publishing {
  import opened Basics
  import opened Envelopes
  import opened Registers
  import opened Storage
  import opened Recovery
  import opened Nodes
  import Durability
  import DetailRefs

  /** A publication in progress: its envelope is made, or its payload is stored as well. */
  datatype Pending = Idle | Made(env: Envelope) | Stored(env: Envelope)

  /** The node: its memory and disk, and the publication in progress. */
  datatype State = State(clock: Time, node: Durability.Machine, pending: Pending)

  /** Who the node is, and how reloading reformats payload data. */
  datatype Self = Self(did: string, peer: string, limit: int, format: string -> string)

  datatype Action =
    | Tick(ns: nat)
    | Begin(draft: Envelope)
    | StorePayload(data: string, digest: string)
    | ApplyOwn
    | Abandon
    | Inbound(env: Envelope)
    | Collection

  /** A finished action, or one that a crash cuts short after at most `done` disk operations. */
  datatype Step = Do(act: Action) | Crash(act: Action, done: nat, torn: bool)

  function Offer(e: Envelope): Durability.Op {
    if e.kind.KindTask? then Durability.OfferTask(e) else Durability.OfferFact(e)
  }

  function PayloadOf(e: Envelope, data: string, digest: string, now: Time): StoredPayload {
    if e.kind.KindTask? then PayloadFor(e, "task", e.taskID, data, digest, now)
    else PayloadFor(e, "fact", e.factID, data, digest, now)
  }

  /** What an action does to the store; inbound envelopes come from other origins. */
  function OpOf(self: Self, v: View, a: Action): Durability.Op {
    match a
    case StorePayload(data, digest) =>
      if v.pending.Made? then Durability.Upsert(PayloadOf(v.pending.env, data, digest, v.clock)) else Durability.Nothing
    case ApplyOwn => if v.pending.Stored? then Offer(v.pending.env) else Durability.Nothing
    case Inbound(e) => if e.origin != self.did then Offer(e) else Durability.Nothing
    case Collection => Durability.Collection
    case _ => Durability.Nothing
  }

  /** What the node may be publishing at this moment: an envelope of its own, with the next number, a
      reference that names it and an expiry to come. The rest of the envelope is free. */
  predicate MayDraft(self: Self, v: View, e: Envelope) {
    && e.origin == self.did && e.publisher == self.peer && e.expiresAt > v.clock
    && match e.kind
       case KindTask =>
         && e.seqNo == NextTaskSeq(v.memory.tasks, self.did, e.taskID)
         && e.detailRef == DetailRefs.BuildDetailRef(self.peer, "task", e.taskID, e.seqNo)
       case KindAgentFact =>
         && e.seqNo == NextFactSeq(v.memory.facts, self.did, e.factID)
         && e.detailRef == DetailRefs.BuildDetailRef(self.peer, "fact", e.factID, e.seqNo)
       case _ => false
  }

  /** The envelopes that `PublishTask` and `PublishFact` make are among them. */
  lemma PublishedMayDraft(self: Self, v: View, i: TaskInput, j: FactInput, w: World)
    requires w.made == v.clock
    ensures MayDraft(self, v, TaskEnvelope(self.did, self.peer, self.limit, v.memory.tasks, i, w))
    ensures MayDraft(self, v, FactEnvelope(self.did, self.peer, self.limit, v.memory.facts, j, w))
  {}

  /** What it does to the publication in progress; publications do not overlap. */
  function PendingAfter(self: Self, v: View, a: Action): Pending {
    match a
    case Begin(e) =>
      if CanBegin(self, v, e) then Made(e) else v.pending
    case StorePayload(_, _) => if v.pending.Made? then Stored(v.pending.env) else v.pending
    case ApplyOwn => if v.pending.Stored? then Idle else v.pending
    case Abandon => Idle
    case _ => v.pending
  }

  /** A crash ends the publication in progress, and the node starts again from its disk. */
  function Next(self: Self, s: State, p: Step): State {
    var op := OpOf(self, ViewOf(s), p.act);
    match p
    case Do(a) =>
      State(if a.Tick? then s.clock + a.ns else s.clock, Durability.Finish(s.node, op, s.clock, self.format),
            PendingAfter(self, ViewOf(s), a))
    case Crash(_, done, torn) =>
      State(s.clock, Durability.Restart(s.node, op, s.clock, done, torn, self.format), Idle)
  }

  function Run(self: Self, s: State, steps: seq<Step>): State {
    if steps == [] then s else Next(self, Run(self, s, steps[..|steps| - 1]), steps[|steps| - 1])
  }

  /** The state without the disk. */
  datatype View = View(clock: Time, memory: Image, pending: Pending)

  function ViewOf(s: State): View {
    View(s.clock, s.node.memory, s.pending)
  }

  /** The view after an action. */
  function Acted(self: Self, v: View, a: Action): View {
    View(if a.Tick? then v.clock + a.ns else v.clock, Durability.Effect(v.memory, OpOf(self, v, a), v.clock),
         PendingAfter(self, v, a))
  }

  // ---------------------------------------------------------------- availability

  /** The reference of the envelope leads to a payload of the same object, version and expiry. */
  ghost predicate Backed(e: Envelope, m: Payloads) {
    && e.detailRef in m
    && var p := m[e.detailRef];
       && p.expiresAt == e.expiresAt && p.version == e.seqNo
       && (if e.kind.KindTask? then p.kind == "task" && p.objectID == e.taskID
           else p.kind == "fact" && p.objectID == e.factID)
  }

  /** An envelope the node made: of its own origin, with a reference that names it. */
  ghost predicate Own(self: Self, e: Envelope) {
    && e.origin == self.did && e.expiresAt != ZERO_TIME
    && (e.kind.KindTask? || e.kind.KindAgentFact?)
    && e.detailRef == if e.kind.KindTask? then DetailRefs.BuildDetailRef(self.peer, "task", e.taskID, e.seqNo)
                      else DetailRefs.BuildDetailRef(self.peer, "fact", e.factID, e.seqNo)
  }

  ghost predicate OwnTaskFine(self: Self, t: TaskState, k: string, s: View) {
    && TaskMatches(t, k)
    && (t.origin == self.did ==>
          && Own(self, t.envelope) && (t.status != EXPIRED ==> Backed(t.envelope, s.memory.payloads))
          && (!s.pending.Idle? ==> s.pending.env.detailRef != t.envelope.detailRef))
  }

  ghost predicate OwnFactFine(self: Self, f: FactState, k: string, s: View) {
    && FactMatches(f, k)
    && (f.origin == self.did ==>
          && Own(self, f.envelope) && Backed(f.envelope, s.memory.payloads)
          && (!s.pending.Idle? ==> s.pending.env.detailRef != f.envelope.detailRef))
  }

  ghost predicate PendingFine(self: Self, s: View) {
    && (!s.pending.Idle? ==> Own(self, s.pending.env))
    && (s.pending.Stored? ==> Backed(s.pending.env, s.memory.payloads) || s.clock > s.pending.env.expiresAt)
  }

  ghost predicate Invariant(self: Self, s: View) {
    && PendingFine(self, s)
    && (forall k :: k in s.memory.tasks ==> OwnTaskFine(self, s.memory.tasks[k], k, s))
    && (forall k :: k in s.memory.facts ==> OwnFactFine(self, s.memory.facts[k], k, s))
  }

  /** Two of the node's envelopes with one reference have the same kind, object and number. */
  lemma OwnRefInjective(self: Self, e: Envelope, f: Envelope)
    requires '/' !in self.peer && Own(self, e) && Own(self, f) && e.detailRef == f.detailRef
    ensures e.kind == f.kind && e.seqNo == f.seqNo
    ensures if e.kind.KindTask? then TaskKey(e) == TaskKey(f) else FactKey(e) == FactKey(f)
    ensures if e.kind.KindTask? then e.taskID == f.taskID else e.factID == f.factID
  {
    var ke, kf := if e.kind.KindTask? then "task" else "fact", if f.kind.KindTask? then "task" else "fact";
    var ie, jf := if e.kind.KindTask? then e.taskID else e.factID, if f.kind.KindTask? then f.taskID else f.factID;
    DetailRefs.BuildInjective(self.peer, ke, ie, e.seqNo, self.peer, kf, jf, f.seqNo);
    assert "task"[0] != "fact"[0];
  }

  /** The reference of a new envelope is used by no record of the node. */
  lemma NewRefUnused(self: Self, s: View, e: Envelope)
    requires '/' !in self.peer && Invariant(self, s) && Own(self, e) && e.seqNo != 0
    requires e.kind.KindTask? ==> e.seqNo == NextTaskSeq(s.memory.tasks, self.did, e.taskID)
    requires e.kind.KindAgentFact? ==> e.seqNo == NextFactSeq(s.memory.facts, self.did, e.factID)
    ensures forall k :: k in s.memory.tasks && s.memory.tasks[k].origin == self.did ==>
              s.memory.tasks[k].envelope.detailRef != e.detailRef
    ensures forall k :: k in s.memory.facts && s.memory.facts[k].origin == self.did ==>
              s.memory.facts[k].envelope.detailRef != e.detailRef
  {
    forall k | k in s.memory.tasks && s.memory.tasks[k].origin == self.did
      ensures s.memory.tasks[k].envelope.detailRef != e.detailRef
    {
      var t := s.memory.tasks[k];
      assert OwnTaskFine(self, t, k, s);
      if t.envelope.detailRef == e.detailRef {
        OwnRefInjective(self, t.envelope, e);
        assert false;
      }
    }
    forall k | k in s.memory.facts && s.memory.facts[k].origin == self.did
      ensures s.memory.facts[k].envelope.detailRef != e.detailRef
    {
      var f := s.memory.facts[k];
      assert OwnFactFine(self, f, k, s);
      if f.envelope.detailRef == e.detailRef {
        OwnRefInjective(self, f.envelope, e);
        assert false;
      }
    }
  }

  lemma DraftOwn(self: Self, s: View, e: Envelope)
    requires MayDraft(self, s, e)
    ensures Own(self, e)
    ensures e.kind.KindTask? ==> e.seqNo == NextTaskSeq(s.memory.tasks, self.did, e.taskID)
    ensures e.kind.KindAgentFact? ==> e.seqNo == NextFactSeq(s.memory.facts, self.did, e.factID)
  {}

  lemma BeginKeeps(self: Self, s: View, e: Envelope)
    requires '/' !in self.peer && Invariant(self, s) && CanBegin(self, s, e)
    ensures Invariant(self, s.(pending := Made(e)))
  {
    DraftOwn(self, s, e);
    NewRefUnused(self, s, e);
    var s' := s.(pending := Made(e));
    forall k | k in s'.memory.tasks ensures OwnTaskFine(self, s'.memory.tasks[k], k, s') {
      assert OwnTaskFine(self, s.memory.tasks[k], k, s);
    }
    forall k | k in s'.memory.facts ensures OwnFactFine(self, s'.memory.facts[k], k, s') {
      assert OwnFactFine(self, s.memory.facts[k], k, s);
    }
  }

  function WithPayload(s: View, p: StoredPayload): View
    requires s.pending.Made?
  {
    s.(memory := s.memory.(payloads := s.memory.payloads[p.ref := p]), pending := Stored(s.pending.env))
  }

  lemma StorePayloadKeepsTask(self: Self, s: View, p: StoredPayload, k: string)
    requires s.pending.Made? && p.ref == s.pending.env.detailRef
    requires k in s.memory.tasks && OwnTaskFine(self, s.memory.tasks[k], k, s)
    ensures OwnTaskFine(self, s.memory.tasks[k], k, WithPayload(s, p))
  {}

  lemma StorePayloadKeepsFact(self: Self, s: View, p: StoredPayload, k: string)
    requires s.pending.Made? && p.ref == s.pending.env.detailRef
    requires k in s.memory.facts && OwnFactFine(self, s.memory.facts[k], k, s)
    ensures OwnFactFine(self, s.memory.facts[k], k, WithPayload(s, p))
  {}

  lemma StorePayloadKeeps(self: Self, s: View, data: string, digest: string)
    requires Invariant(self, s) && s.pending.Made?
    ensures Invariant(self, WithPayload(s, PayloadOf(s.pending.env, data, digest, s.clock)))
  {
    var p := PayloadOf(s.pending.env, data, digest, s.clock);
    forall k | k in s.memory.tasks ensures OwnTaskFine(self, s.memory.tasks[k], k, WithPayload(s, p)) {
      StorePayloadKeepsTask(self, s, p, k);
    }
    forall k | k in s.memory.facts ensures OwnFactFine(self, s.memory.facts[k], k, WithPayload(s, p)) {
      StorePayloadKeepsFact(self, s, p, k);
    }
  }

  /** The envelope is foreign, or the node's own and backed. */
  ghost predicate MayApply(self: Self, s: View, e: Envelope, pending: Pending) {
    || (pending == s.pending && e.origin != self.did)
    || (pending == Idle && Own(self, e) && (Backed(e, s.memory.payloads) || s.clock > e.expiresAt))
  }

  lemma ApplyKeepsTask(self: Self, s: View, e: Envelope, pending: Pending, k: string)
    requires k in s.memory.tasks ==> OwnTaskFine(self, s.memory.tasks[k], k, s)
    requires MayApply(self, s, e, pending) && k in ApplyTask(s.memory.tasks, e, s.clock)
    ensures var s' := s.(memory := s.memory.(tasks := ApplyTask(s.memory.tasks, e, s.clock)), pending := pending);
            OwnTaskFine(self, s'.memory.tasks[k], k, s')
  {}

  lemma ApplyKeepsFact(self: Self, s: View, e: Envelope, pending: Pending, k: string)
    requires k in s.memory.facts ==> OwnFactFine(self, s.memory.facts[k], k, s)
    requires MayApply(self, s, e, pending) && k in ApplyFact(s.memory.facts, e, s.clock)
    ensures var s' := s.(memory := s.memory.(facts := ApplyFact(s.memory.facts, e, s.clock)), pending := pending);
            OwnFactFine(self, s'.memory.facts[k], k, s')
  {}

  /** Applying an envelope of another origin, or the node's own once it is backed, keeps the invariant. */
  lemma ApplyKeeps(self: Self, s: View, e: Envelope, pending: Pending)
    requires Invariant(self, s) && MayApply(self, s, e, pending)
    ensures Invariant(self, s.(memory := Durability.Effect(s.memory, Offer(e), s.clock), pending := pending))
  {
    var s' := s.(memory := Durability.Effect(s.memory, Offer(e), s.clock), pending := pending);
    TimeKeeps(self, s, pending, 0);
    forall k | k in s'.memory.tasks ensures OwnTaskFine(self, s'.memory.tasks[k], k, s') {
      if e.kind.KindTask? {
        ApplyKeepsTask(self, s, e, pending, k);
      } else {
        assert OwnTaskFine(self, s.memory.tasks[k], k, s.(pending := pending));
      }
    }
    forall k | k in s'.memory.facts ensures OwnFactFine(self, s'.memory.facts[k], k, s') {
      if e.kind.KindTask? {
        assert OwnFactFine(self, s.memory.facts[k], k, s.(pending := pending));
      } else {
        ApplyKeepsFact(self, s, e, pending, k);
      }
    }
  }

  /** Payloads may only be collected after the records that refer to them. */
  lemma PartlyKeeps(self: Self, s: View, t: bool, f: bool, p: bool)
    requires Invariant(self, s) && (p ==> f) && (f ==> t)
    ensures Invariant(self, s.(memory := Partly(s.memory, s.clock, t, f, p)))
  {
    var s' := s.(memory := Partly(s.memory, s.clock, t, f, p));
    forall k | k in s'.memory.tasks ensures OwnTaskFine(self, s'.memory.tasks[k], k, s') {
      PartlyKeepsTask(self, s, t, f, p, k);
    }
    forall k | k in s'.memory.facts ensures OwnFactFine(self, s'.memory.facts[k], k, s') {
      PartlyKeepsFact(self, s, t, f, p, k);
    }
  }

  lemma PartlyKeepsTask(self: Self, s: View, t: bool, f: bool, p: bool, k: string)
    requires (p ==> f) && (f ==> t) && k in s.memory.tasks && OwnTaskFine(self, s.memory.tasks[k], k, s)
    ensures var s' := s.(memory := Partly(s.memory, s.clock, t, f, p)); OwnTaskFine(self, s'.memory.tasks[k], k, s')
  {}

  lemma PartlyKeepsFact(self: Self, s: View, t: bool, f: bool, p: bool, k: string)
    requires (p ==> f) && k in Partly(s.memory, s.clock, t, f, p).facts && OwnFactFine(self, s.memory.facts[k], k, s)
    ensures var s' := s.(memory := Partly(s.memory, s.clock, t, f, p)); OwnFactFine(self, s'.memory.facts[k], k, s')
  {}

  /** A reload keeps the invariant. */
  lemma ReloadKeeps(self: Self, s: View)
    requires Invariant(self, s)
    ensures Invariant(self, s.(memory := Reloaded(s.memory, self.format)))
  {
    var s' := s.(memory := Reloaded(s.memory, self.format));
    forall k | k in s'.memory.tasks ensures OwnTaskFine(self, s'.memory.tasks[k], k, s') {
      assert OwnTaskFine(self, s.memory.tasks[k], k, s);
    }
    forall k | k in s'.memory.facts ensures OwnFactFine(self, s'.memory.facts[k], k, s') {
      assert OwnFactFine(self, s.memory.facts[k], k, s);
    }
  }

  lemma TimeKeeps(self: Self, s: View, pending: Pending, ns: nat)
    requires Invariant(self, s) && pending in {s.pending, Idle}
    ensures Invariant(self, s.(clock := s.clock + ns, pending := pending))
  {}

  predicate CanBegin(self: Self, v: View, e: Envelope) {
    v.pending.Idle? && MayDraft(self, v, e) && ValidateUnsigned(e).None?
  }

  lemma BeginActed(self: Self, v: View, e: Envelope)
    ensures Acted(self, v, Begin(e)) == if CanBegin(self, v, e) then v.(pending := Made(e)) else v
  {}

  lemma BeginActionKeeps(self: Self, s: View, e: Envelope)
    requires '/' !in self.peer && Invariant(self, s)
    ensures Invariant(self, Acted(self, s, Begin(e)))
  {
    BeginActed(self, s, e);
    if CanBegin(self, s, e) {
      BeginKeeps(self, s, e);
    }
  }

  lemma StoreActionKeeps(self: Self, s: View, a: Action)
    requires Invariant(self, s) && a.StorePayload?
    ensures Invariant(self, Acted(self, s, a))
  {
    if s.pending.Made? {
      StorePayloadKeeps(self, s, a.data, a.digest);
      assert Acted(self, s, a) == WithPayload(s, PayloadOf(s.pending.env, a.data, a.digest, s.clock));
    } else {
      assert Acted(self, s, a) == s;
    }
  }

  lemma ApplyActionKeeps(self: Self, s: View, a: Action)
    requires Invariant(self, s) && (a.ApplyOwn? || a.Inbound?)
    ensures Invariant(self, Acted(self, s, a))
  {
    if a.ApplyOwn? && s.pending.Stored? {
      ApplyKeeps(self, s, s.pending.env, Idle);
    } else if a.Inbound? && a.env.origin != self.did {
      ApplyKeeps(self, s, a.env, s.pending);
    } else {
      assert Acted(self, s, a) == s;
    }
  }

  /** A finished action keeps the invariant. */
  lemma ActionKeeps(self: Self, s: View, a: Action)
    requires '/' !in self.peer && Invariant(self, s)
    ensures Invariant(self, Acted(self, s, a))
  {
    match a {
      case Tick(ns) =>
        TimeKeeps(self, s, s.pending, ns);
        assert Acted(self, s, a) == s.(clock := s.clock + ns);
      case Begin(e) =>
        BeginActionKeeps(self, s, e);
      case StorePayload(_, _) =>
        StoreActionKeeps(self, s, a);
      case ApplyOwn =>
        ApplyActionKeeps(self, s, a);
      case Abandon =>
        TimeKeeps(self, s, Idle, 0);
        assert Acted(self, s, a) == s.(pending := Idle);
      case Inbound(_) =>
        ApplyActionKeeps(self, s, a);
      case Collection =>
        PartlyKeeps(self, s, true, true, true);
        assert Acted(self, s, a) == s.(memory := Partly(s.memory, s.clock, true, true, true));
    }
  }

  lemma EffectKeeps(self: Self, s: View, a: Action)
    requires '/' !in self.peer && Invariant(self, s)
    ensures Invariant(self, View(s.clock, Durability.Effect(s.memory, OpOf(self, s, a), s.clock), Idle))
  {
    if a.Tick? {
      TimeKeeps(self, s, Idle, 0);
    } else {
      ActionKeeps(self, s, a);
      TimeKeeps(self, Acted(self, s, a), Idle, 0);
    }
  }

  /** So does whatever a crash inside it leaves. */
  lemma LeftoverKeeps(self: Self, s: View, a: Action, found: Image)
    requires '/' !in self.peer && Invariant(self, s)
    requires Durability.Leaves(s.memory, OpOf(self, s, a), s.clock, found)
    ensures Invariant(self, View(s.clock, found, Idle))
  {
    TimeKeeps(self, s, Idle, 0);
    if OpOf(self, s, a).Collection? {
      var t, f, p :| (p ==> f) && (f ==> t) && found == Partly(s.memory, s.clock, t, f, p);
      PartlyKeeps(self, s.(pending := Idle), t, f, p);
    } else {
      EffectKeeps(self, s, a);
      assert s.(clock := s.clock + 0, pending := Idle) == View(s.clock, s.memory, Idle);
    }
  }

  /** The payload invariant, and memory and disk in step. */
  ghost predicate Sound(self: Self, s: State) {
    Invariant(self, ViewOf(s)) && Durability.InStep(s.node, self.format)
  }

  lemma StepKeeps(self: Self, s: State, p: Step)
    requires '/' !in self.peer && Idempotent(self.format) && Sound(self, s)
    ensures Sound(self, Next(self, s, p))
  {
    var op := OpOf(self, ViewOf(s), p.act);
    match p {
      case Do(a) =>
        ActionKeeps(self, ViewOf(s), a);
        Durability.FinishInStep(s.node, op, s.clock, self.format);
      case Crash(a, done, torn) =>
        var found := Durability.RestartFinds(s.node, op, s.clock, done, torn, self.format);
        LeftoverKeeps(self, ViewOf(s), a, found);
        ReloadKeeps(self, View(s.clock, found, Idle));
    }
  }

  lemma {:induction false} RunKeeps(self: Self, s: State, steps: seq<Step>)
    requires '/' !in self.peer && Idempotent(self.format) && Sound(self, s)
    ensures Sound(self, Run(self, s, steps))
  {
    if steps != [] {
      RunKeeps(self, s, steps[..|steps| - 1]);
      StepKeeps(self, Run(self, s, steps[..|steps| - 1]), steps[|steps| - 1]);
    }
  }

  /** Each of the node's own tasks that is not marked expired, and each of its own facts, has a payload
      behind its reference. */
  ghost predicate AllBacked(self: Self, m: Image) {
    && (forall k :: k in m.tasks && m.tasks[k].origin == self.did && m.tasks[k].status != EXPIRED ==>
          Backed(m.tasks[k].envelope, m.payloads))
    && (forall k :: k in m.facts && m.facts[k].origin == self.did ==> Backed(m.facts[k].envelope, m.payloads))
  }

  lemma InvariantBacks(self: Self, s: View)
    requires Invariant(self, s)
    ensures AllBacked(self, s.memory)
  {
    forall k | k in s.memory.tasks && s.memory.tasks[k].origin == self.did && s.memory.tasks[k].status != EXPIRED
      ensures Backed(s.memory.tasks[k].envelope, s.memory.payloads)
    {
      assert OwnTaskFine(self, s.memory.tasks[k], k, s);
    }
    forall k | k in s.memory.facts && s.memory.facts[k].origin == self.did
      ensures Backed(s.memory.facts[k].envelope, s.memory.payloads)
    {
      assert OwnFactFine(self, s.memory.facts[k], k, s);
    }
  }

  /** At every moment of every run from a fresh directory, each of the node's own tasks that is not marked
      expired, and each of its own facts, has a payload behind its reference, with the same object, version
      and expiry, in memory and on disk: whenever collections run, and at whatever disk operation the node
      crashes and starts again. */
  lemma DetailAvailable(self: Self, clock: Time, steps: seq<Step>)
    requires '/' !in self.peer && Idempotent(self.format)
    ensures var s := Run(self, State(clock, Durability.FRESH, Idle), steps);
            && AllBacked(self, s.node.memory)
            && Load(s.node.disk).Some? && AllBacked(self, Load(s.node.disk).value)
  {
    var s0 := State(clock, Durability.FRESH, Idle);
    assert Durability.InStep(s0.node, self.format) by {
      assert Printed(map[], self.format) == map[];
    }
    RunKeeps(self, s0, steps);
    var s := Run(self, s0, steps);
    InvariantBacks(self, ViewOf(s));
    ReloadKeeps(self, ViewOf(s));
    InvariantBacks(self, ViewOf(s).(memory := Reloaded(s.node.memory, self.format)));
  }

  /** An uninterrupted publication does what `Node.PublishTask` and `Node.PublishFact` promise: it stores
      the payload and offers the envelope to the records of its kind, and nothing else changes. */
  lemma UninterruptedPublication(self: Self, s: State, e: Envelope, data: string, digest: string)
    requires s.pending.Idle? && MayDraft(self, ViewOf(s), e) && ValidateUnsigned(e).None?
    ensures var p := PayloadOf(e, data, digest, s.clock);
            var m := s.node.memory.(payloads := s.node.memory.payloads[e.detailRef := p]);
            ViewOf(Run(self, s, [Do(Begin(e)), Do(StorePayload(data, digest)), Do(ApplyOwn)]))
            == View(s.clock, Durability.Effect(m, Offer(e), s.clock), Idle)
  {
    var begin, store := Begin(e), StorePayload(data, digest);
    ThreeActions(self, s, begin, store, ApplyOwn);
    var made := View(s.clock, s.node.memory, Made(e));
    BeginActed(self, ViewOf(s), e);
    TwoActions(self, made, e, data, digest);
  }

  lemma TwoActions(self: Self, v: View, e: Envelope, data: string, digest: string)
    requires v.pending == Made(e)
    ensures var m := v.memory.(payloads := v.memory.payloads[e.detailRef := PayloadOf(e, data, digest, v.clock)]);
            Acted(self, Acted(self, v, StorePayload(data, digest)), ApplyOwn)
            == View(v.clock, Durability.Effect(m, Offer(e), v.clock), Idle)
  {}

  lemma StepActs(self: Self, s: State, a: Action)
    ensures ViewOf(Next(self, s, Do(a))) == Acted(self, ViewOf(s), a)
  {}

  lemma ThreeActions(self: Self, s: State, a: Action, b: Action, c: Action)
    ensures ViewOf(Run(self, s, [Do(a), Do(b), Do(c)])) == Acted(self, Acted(self, Acted(self, ViewOf(s), a), b), c)
  {
    ThreeSteps(self, s, Do(a), Do(b), Do(c));
    var one := Next(self, s, Do(a));
    var two := Next(self, one, Do(b));
    StepActs(self, s, a);
    StepActs(self, one, b);
    StepActs(self, two, c);
  }

  lemma ThreeSteps(self: Self, s: State, p: Step, q: Step, r: Step)
    ensures Run(self, s, [p, q, r]) == Next(self, Next(self, Next(self, s, p), q), r)
  {
    var one, two, three := [p], [p, q], [p, q, r];
    assert one[..0] == [] && two[..1] == one && three[..2] == two;
    assert Run(self, s, one) == Next(self, s, p);
    assert Run(self, s, two) == Next(self, Next(self, s, p), q);
  }
}
