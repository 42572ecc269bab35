/** Runs of a store's operations with crashes anywhere: memory and disk agree at every boundary. */
module Durability {
  import opened Basics
  import opened Envelopes
  import opened Registers
  import opened Storage
  import opened Recovery
  import Negotiations

  /** The operations that change what is persisted. */
  datatype Op =
    | OfferTask(env: Envelope)
    | OfferFact(env: Envelope)
    | Upsert(payload: StoredPayload)
    | LogFrame(frame: Negotiations.Frame)
    | NotePeer(peer: KnownPeer)
    | Collection
    | Nothing

  /** What an operation does to the memory. */
  function Effect(m: Image, op: Op, now: Time): Image {
    match op
    case OfferTask(e) => m.(tasks := ApplyTask(m.tasks, e, now))
    case OfferFact(e) => m.(facts := ApplyFact(m.facts, e, now))
    case Upsert(p) => m.(payloads := m.payloads[p.ref := p])
    case LogFrame(f) => m.(sessions := Negotiations.RecordFrame(m.sessions, f, now))
    case NotePeer(k) => m.(peers := m.peers[k.id := k])
    case Collection => CollectImage(m, now)
    case Nothing => m
  }

  /** The saves it makes, in order. */
  function Saves(m: Image, op: Op, now: Time, format: string -> string): seq<Save> {
    var m' := Effect(m, op, now);
    match op
    case OfferTask(e) =>
      if TaskVerdict(Lookup(m.tasks, TaskKey(e)), e, now) == Applied then [Save(TaskPart, TaskBody(m'.tasks))] else []
    case OfferFact(e) =>
      if FactVerdict(Lookup(m.facts, FactKey(e)), e, now) == Applied then [Save(FactPart, FactBody(m'.facts))] else []
    case Upsert(_) => [Save(PayloadPart, PayloadBody(Printed(m'.payloads, format)))]
    case LogFrame(_) => [Save(SessionPart, SessionBody(m'.sessions))]
    case NotePeer(_) => [Save(PeerPart, PeerBody(m'.peers))]
    case Collection => CollectSaves(m, now, format)
    case Nothing => []
  }

  function Ops(m: Image, op: Op, now: Time, format: string -> string): seq<DiskOp> {
    AllOps(Saves(m, op, now, format))
  }

  datatype Machine = Machine(memory: Image, disk: Disk)

  const FRESH := Machine(EMPTY_IMAGE, map[])

  function Finish(s: Machine, op: Op, now: Time, format: string -> string): Machine {
    Machine(Effect(s.memory, op, now), ApplyOps(s.disk, Ops(s.memory, op, now, format)))
  }

  /** The disk when a crash lets at most `done` disk operations of `op` finish. */
  function Wreck(s: Machine, op: Op, now: Time, done: nat, torn: bool, format: string -> string): Disk {
    var ops := Ops(s.memory, op, now, format);
    CrashDisk(s.disk, ops, if done <= |ops| then done else |ops|, torn)
  }

  /** A crash in the middle of `op`, and the reload after it. */
  function Restart(s: Machine, op: Op, now: Time, done: nat, torn: bool, format: string -> string): Machine {
    var d := Wreck(s, op, now, done, torn, format);
    match Load(d)
    case Some(m) => Machine(m, d)
    case None => s
  }

  datatype Event = Done(op: Op, at: Time) | Crashed(op: Op, at: Time, done: nat, torn: bool)

  function Step(s: Machine, ev: Event, format: string -> string): Machine {
    match ev
    case Done(op, at) => Finish(s, op, at, format)
    case Crashed(op, at, done, torn) => Restart(s, op, at, done, torn, format)
  }

  function Run(s: Machine, evs: seq<Event>, format: string -> string): Machine {
    if evs == [] then s else Step(Run(s, evs[..|evs| - 1], format), evs[|evs| - 1], format)
  }

  ghost predicate InStep(s: Machine, format: string -> string) {
    Synced(s.memory, s.disk, format)
  }

  // ---------------------------------------------------------------- one operation

  lemma OneSave(s: Save)
    ensures AllOps([s]) == SaveOps(s)
  {
    assert [s][..0] == [] && AllOps([]) == [];
  }

  /** The save writes the one part in which the memories differ. */
  ghost predicate SavesPart(m: Image, m': Image, s: Save, format: string -> string) {
    match s.part
    case TaskPart => s.body == TaskBody(m'.tasks) && m' == m.(tasks := m'.tasks)
    case FactPart => s.body == FactBody(m'.facts) && m' == m.(facts := m'.facts)
    case PayloadPart => s.body == PayloadBody(Printed(m'.payloads, format)) && m' == m.(payloads := m'.payloads)
    case SessionPart => s.body == SessionBody(m'.sessions) && m' == m.(sessions := m'.sessions)
    case PeerPart => s.body == PeerBody(m'.peers) && m' == m.(peers := m'.peers)
  }

  /** Files that equal the old ones but for part `q` hold the memory with that part changed. */
  lemma OneFile(m: Image, d: Disk, m': Image, d': Disk, s: Save, format: string -> string)
    requires Synced(m, d, format)
    requires forall q :: FinalFile(d', q) == if q == s.part then Some(s.body) else FinalFile(d, q)
    requires SavesPart(m, m', s, format)
    ensures Synced(m', d', format)
  {
    SyncedByPart(m, d, format);
    SyncedByPart(m', d', format);
    forall q ensures Holds(FinalFile(d', q), m', q, format) {
      assert Holds(FinalFile(d, q), m, q, format);
      PartChanged(m, m', s, format, q, FinalFile(d, q));
    }
  }

  lemma PartChanged(m: Image, m': Image, s: Save, format: string -> string, q: Part, b: Option<Body>)
    requires SavesPart(m, m', s, format) && Holds(b, m, q, format)
    ensures Holds(if q == s.part then Some(s.body) else b, m', q, format)
  {}

  lemma SameFiles(m: Image, d: Disk, d': Disk, format: string -> string)
    requires Synced(m, d, format)
    requires forall q :: FinalFile(d', q) == FinalFile(d, q)
    ensures Synced(m, d', format)
  {
    SyncedByPart(m, d, format);
    SyncedByPart(m, d', format);
    forall q ensures Holds(FinalFile(d', q), m, q, format) {
      assert Holds(FinalFile(d, q), m, q, format);
    }
  }

  /** What the disk holds after a crash inside an operation other than a collection: the memory before
      it or the memory after it. */
  lemma CrashInOne(s: Machine, op: Op, now: Time, done: nat, torn: bool, format: string -> string) returns (after: bool)
    requires InStep(s, format) && !op.Collection?
    ensures Synced(if after then Effect(s.memory, op, now) else s.memory, Wreck(s, op, now, done, torn, format), format)
    ensures done >= |Ops(s.memory, op, now, format)| ==> after
  {
    var saves := Saves(s.memory, op, now, format);
    var d := Wreck(s, op, now, done, torn, format);
    if saves == [] {
      after := true;
      assert AllOps(saves) == [] && d == s.disk;
      assert Effect(s.memory, op, now) == s.memory;
    } else {
      var save := saves[0];
      assert saves == [save];
      OneSave(save);
      var n := if done <= 2 then done else 2;
      after := n == 2;
      forall q ensures FinalFile(d, q) == if after && q == save.part then Some(save.body) else FinalFile(s.disk, q) {
        SaveAtomic(s.disk, save, n, torn, q);
      }
      if after {
        OneFile(s.memory, s.disk, Effect(s.memory, op, now), d, save, format);
      } else {
        SameFiles(s.memory, s.disk, d, format);
      }
    }
  }

  /** A memory that a crash inside `op` can leave on the disk. */
  ghost predicate Leaves(m: Image, op: Op, now: Time, found: Image) {
    if op.Collection? then exists t, f, p :: (p ==> f) && (f ==> t) && found == Partly(m, now, t, f, p)
    else found in {m, Effect(m, op, now)}
  }

  /** The disk holds one of them, and the memory after the operation once all its disk operations are
      done. */
  lemma CrashFinds(s: Machine, op: Op, now: Time, done: nat, torn: bool, format: string -> string)
    returns (found: Image)
    requires InStep(s, format)
    ensures Leaves(s.memory, op, now, found)
    ensures Synced(found, Wreck(s, op, now, done, torn, format), format)
    ensures done >= |Ops(s.memory, op, now, format)| ==> found == Effect(s.memory, op, now)
  {
    if op.Collection? {
      var ops := Ops(s.memory, op, now, format);
      var t, f, p := CrashedCollection(s.memory, s.disk, format, now, if done <= |ops| then done else |ops|, torn);
      found := Partly(s.memory, now, t, f, p);
    } else {
      var after := CrashInOne(s, op, now, done, torn, format);
      found := if after then Effect(s.memory, op, now) else s.memory;
    }
  }

  /** A finished operation leaves memory and disk in step. */
  lemma FinishInStep(s: Machine, op: Op, now: Time, format: string -> string)
    requires InStep(s, format)
    ensures InStep(Finish(s, op, now, format), format)
  {
    var ops := Ops(s.memory, op, now, format);
    var found := CrashFinds(s, op, now, |ops|, false, format);
    assert ops[..|ops|] == ops;
  }

  lemma FinishInStepIfSo(s: Machine, op: Op, now: Time, format: string -> string)
    ensures InStep(s, format) ==> InStep(Finish(s, op, now, format), format)
  {
    if InStep(s, format) {
      FinishInStep(s, op, now, format);
    }
  }

  /** One save of a changed part: the memory before it or after it is on the disk. */
  lemma PartSaved(m: Image, d: Disk, m': Image, s: Save, io: IO, format: string -> string)
    requires Synced(m, d, format) && SavesPart(m, m', s, format)
    ensures Synced(if io.Written? then m' else m, AfterSave(d, s, io), format)
  {
    SaveOutcome(d, s, io);
    if io.Written? {
      OneFile(m, d, m', AfterSave(d, s, io), s, format);
    }
  }

  /** What an operation with at most one save leaves when that save ends as `io` says: memory changes even
      if the save fails. */
  function Attempted(s: Machine, op: Op, now: Time, io: IO, format: string -> string): Machine {
    var saves := Saves(s.memory, op, now, format);
    Machine(Effect(s.memory, op, now), if saves == [] then s.disk else AfterSave(s.disk, saves[0], io))
  }

  lemma AttemptedOutcome(s: Machine, op: Op, now: Time, io: IO, format: string -> string)
    requires !op.Collection?
    ensures var saves := Saves(s.memory, op, now, format); var t := Attempted(s, op, now, io, format);
            && (saves == [] || io.Written? ==> t == Finish(s, op, now, format))
            && (saves == [] || !io.Written? ==> Load(t.disk) == Load(s.disk))
            && (InStep(s, format) && (saves == [] || io.Written?) ==> InStep(t, format))
  {
    var saves := Saves(s.memory, op, now, format);
    if saves == [] {
      assert AllOps(saves) == [];
    } else {
      assert saves == [saves[0]];
      OneSave(saves[0]);
      SaveOutcome(s.disk, saves[0], io);
    }
    if InStep(s, format) {
      FinishInStep(s, op, now, format);
    }
  }

  /** Reloading a disk that was in step finds the memory reformatted, and is in step again. */
  lemma ReloadInStep(m: Image, d: Disk, format: string -> string)
    requires Synced(m, d, format) && Idempotent(format)
    ensures Load(d) == Some(Reloaded(m, format)) && Synced(Load(d).value, d, format)
  {
    assert Printed(Printed(m.payloads, format), format) == Printed(m.payloads, format);
  }

  /** After a crash the node runs on one of the memories the operation can leave, reformatted. */
  lemma RestartFinds(s: Machine, op: Op, now: Time, done: nat, torn: bool, format: string -> string)
    returns (found: Image)
    requires InStep(s, format) && Idempotent(format)
    ensures Leaves(s.memory, op, now, found)
    ensures Restart(s, op, now, done, torn, format)
            == Machine(Reloaded(found, format), Wreck(s, op, now, done, torn, format))
    ensures InStep(Restart(s, op, now, done, torn, format), format)
  {
    found := CrashFinds(s, op, now, done, torn, format);
    ReloadInStep(found, Wreck(s, op, now, done, torn, format), format);
  }

  // ---------------------------------------------------------------- runs

  /** However operations and crashes follow one another, memory and disk agree at every boundary. */
  lemma {:induction false} RunInStep(s: Machine, evs: seq<Event>, format: string -> string)
    requires InStep(s, format) && Idempotent(format)
    ensures InStep(Run(s, evs, format), format)
  {
    if evs != [] {
      RunInStep(s, evs[..|evs| - 1], format);
      var t := Run(s, evs[..|evs| - 1], format);
      match evs[|evs| - 1] {
        case Done(op, at) =>
          FinishInStep(t, op, at, format);
        case Crashed(op, at, done, torn) =>
          var found := RestartFinds(t, op, at, done, torn, format);
      }
    }
  }

  /** From a fresh directory: disk and memory always agree; tasks, facts, sessions and peers are found
      again unchanged, and so are payloads but for the formatting of their data; and a collection that a
      crash cuts short, followed by a reload and a collection later on, does what one uninterrupted
      collection later on would have done. */
  lemma DurableRun(evs: seq<Event>, format: string -> string, now: Time, later: Time, done: nat, torn: bool)
    requires Idempotent(format) && now <= later
    ensures var s := Run(FRESH, evs, format);
            && Load(s.disk) == Some(Reloaded(s.memory, format)) && SameButData(Load(s.disk).value, s.memory)
            && DataOnDisk(s.disk, s.memory.payloads, format)
            && var r := Restart(s, Collection, now, done, torn, format);
               SameButData(Effect(r.memory, Collection, later), Effect(s.memory, Collection, later))
  {
    assert InStep(FRESH, format) by {
      assert Printed(map[], format) == map[];
    }
    RunInStep(FRESH, evs, format);
    RecollectedLater(Run(FRESH, evs, format), format, now, later, done, torn);
  }

  lemma RecollectedLater(s: Machine, format: string -> string, now: Time, later: Time, done: nat, torn: bool)
    requires InStep(s, format) && Idempotent(format) && now <= later
    ensures SameButData(CollectImage(Restart(s, Collection, now, done, torn, format).memory, later),
                        CollectImage(s.memory, later))
  {
    var found := RestartFinds(s, Collection, now, done, torn, format);
    var t, f, p :| (p ==> f) && (f ==> t) && found == Partly(s.memory, now, t, f, p);
    LaterCollectionAbsorbs(s.memory, now, later, t, f, p);
    CollectReloaded(found, later, format);
  }

  // ---------------------------------------------------------------- payload data

  predicate StoresAt(ev: Event, r: seq<byte>) {
    ev.op.Upsert? && ev.op.payload.ref == r
  }

  /** `q` is `p`, its data reformatted perhaps. */
  ghost predicate Means<M>(q: StoredPayload, p: StoredPayload, meaning: string -> M) {
    q == p.(data := q.data) && meaning(q.data) == meaning(p.data)
  }

  /** `q` is what event `i` stored at the reference, or tried to before it crashed, and no finished store
      there came later. */
  ghost predicate GivenAt<M>(evs: seq<Event>, i: int, r: seq<byte>, q: StoredPayload, meaning: string -> M) {
    && 0 <= i < |evs| && StoresAt(evs[i], r) && Means(q, evs[i].op.payload, meaning)
    && (forall j :: i < j < |evs| ==> !(StoresAt(evs[j], r) && evs[j].Done?))
  }

  ghost predicate Given<M>(evs: seq<Event>, r: seq<byte>, q: StoredPayload, meaning: string -> M) {
    exists i :: GivenAt(evs, i, r, q, meaning)
  }

  lemma GivenLonger<M>(evs: seq<Event>, ev: Event, r: seq<byte>, q: StoredPayload, q': StoredPayload,
                       meaning: string -> M)
    requires Given(evs, r, q, meaning) && Means(q', q, meaning) && !(StoresAt(ev, r) && ev.Done?)
    ensures Given(evs + [ev], r, q', meaning)
  {
    var i :| GivenAt(evs, i, r, q, meaning);
    var all := evs + [ev];
    assert all[i] == evs[i] && forall j :: 0 <= j < |evs| ==> all[j] == evs[j];
    assert GivenAt(all, i, r, q', meaning);
  }

  lemma GivenNow<M>(evs: seq<Event>, ev: Event, r: seq<byte>, q: StoredPayload, meaning: string -> M)
    requires StoresAt(ev, r) && Means(q, ev.op.payload, meaning)
    ensures Given(evs + [ev], r, q, meaning)
  {
    assert GivenAt(evs + [ev], |evs|, r, q, meaning);
  }

  ghost predicate KeepsMeaning<M>(format: string -> string, meaning: string -> M) {
    forall x :: meaning(format(x)) == meaning(x)
  }

  /** What an operation, or a crash inside it, leaves at a reference: the payload stored there now, or the
      one from before, or none. */
  lemma LeftAt(m: Image, op: Op, now: Time, found: Image, r: seq<byte>)
    requires Leaves(m, op, now, found)
    ensures r in found.payloads ==>
              || (op.Upsert? && op.payload.ref == r && found.payloads[r] == op.payload)
              || (r in m.payloads && found.payloads[r] == m.payloads[r])
  {}

  lemma StepMeans<M>(s: Machine, ev: Event, format: string -> string, r: seq<byte>, meaning: string -> M)
    requires InStep(s, format) && Idempotent(format) && KeepsMeaning(format, meaning)
    ensures var t := Step(s, ev, format);
            r in t.memory.payloads ==>
              || (StoresAt(ev, r) && Means(t.memory.payloads[r], ev.op.payload, meaning))
              || (r in s.memory.payloads && Means(t.memory.payloads[r], s.memory.payloads[r], meaning)
                  && !(StoresAt(ev, r) && ev.Done?))
  {
    match ev {
      case Done(op, at) =>
        LeftAfter(s.memory, op, at, r);
      case Crashed(op, at, done, torn) =>
        var found := RestartFinds(s, op, at, done, torn, format);
        LeftAt(s.memory, op, at, found, r);
        assert r in found.payloads ==>
                 Reloaded(found, format).payloads[r] == found.payloads[r].(data := format(found.payloads[r].data));
    }
  }

  lemma LeftAfter(m: Image, op: Op, now: Time, r: seq<byte>)
    ensures var m' := Effect(m, op, now);
            if op.Upsert? && op.payload.ref == r then r in m'.payloads && m'.payloads[r] == op.payload
            else r in m'.payloads ==> r in m.payloads && m'.payloads[r] == m.payloads[r]
  {}

  /** In memory and on disk, after any run with crashes and reloads: each payload is one that was given for its
      reference, the last one but for stores cut short; and its data still means what was given, whatever
      the meaning is that reformatting leaves alone. */
  lemma {:induction false} DataKept<M>(evs: seq<Event>, format: string -> string, r: seq<byte>, meaning: string -> M)
    requires Idempotent(format) && KeepsMeaning(format, meaning)
    ensures var s := Run(FRESH, evs, format);
            && (r in s.memory.payloads ==> Given(evs, r, s.memory.payloads[r], meaning))
            && Load(s.disk).Some?
            && var m := Load(s.disk).value.payloads;
               (r in m <==> r in s.memory.payloads) && (r in m ==> Means(m[r], s.memory.payloads[r], meaning))
  {
    RunFromFresh(evs, format);
    SyncedData(Run(FRESH, evs, format).memory, Run(FRESH, evs, format).disk, format);
    if evs != [] {
      var front, ev := evs[..|evs| - 1], evs[|evs| - 1];
      assert evs == front + [ev];
      DataKept(front, format, r, meaning);
      RunFromFresh(front, format);
      var s := Run(FRESH, front, format);
      StepMeans(s, ev, format, r, meaning);
      var t := Step(s, ev, format);
      if r in t.memory.payloads {
        if StoresAt(ev, r) && Means(t.memory.payloads[r], ev.op.payload, meaning) {
          GivenNow(front, ev, r, t.memory.payloads[r], meaning);
        } else {
          GivenLonger(front, ev, r, s.memory.payloads[r], t.memory.payloads[r], meaning);
        }
      }
    }
  }

  lemma RunFromFresh(evs: seq<Event>, format: string -> string)
    requires Idempotent(format)
    ensures InStep(Run(FRESH, evs, format), format)
  {
    assert Printed(map[], format) == map[];
    RunInStep(FRESH, evs, format);
  }

  /** The event neither stores at the reference nor collects a payload with this expiry. */
  predicate Spares(ev: Event, r: seq<byte>, expiry: Time) {
    !StoresAt(ev, r) && (ev.op.Collection? ==> expiry == ZERO_TIME || ev.at <= expiry)
  }

  lemma SparedStep<M>(s: Machine, ev: Event, format: string -> string, r: seq<byte>, meaning: string -> M)
    requires InStep(s, format) && Idempotent(format) && KeepsMeaning(format, meaning)
    requires r in s.memory.payloads && Spares(ev, r, s.memory.payloads[r].expiresAt)
    ensures var t := Step(s, ev, format);
            r in t.memory.payloads && Means(t.memory.payloads[r], s.memory.payloads[r], meaning)
  {
    StepMeans(s, ev, format, r, meaning);
    match ev {
      case Done(op, at) =>
        SparedLeft(s.memory, ev, Effect(s.memory, op, at), r);
      case Crashed(op, at, done, torn) =>
        var found := RestartFinds(s, op, at, done, torn, format);
        SparedLeft(s.memory, ev, found, r);
    }
  }

  lemma SparedLeft(m: Image, ev: Event, found: Image, r: seq<byte>)
    requires r in m.payloads && Spares(ev, r, m.payloads[r].expiresAt)
    requires Leaves(m, ev.op, ev.at, found) || found == Effect(m, ev.op, ev.at)
    ensures r in found.payloads
  {}

  /** A finished store is there, with its meaning, in memory and after a reload, until the next store at its
      reference or a collection later than its expiry, whatever else happens and wherever crashes fall. */
  lemma {:induction false} StoredStays<M>(s: Machine, p: StoredPayload, at: Time, evs: seq<Event>,
                                          format: string -> string, meaning: string -> M)
    requires InStep(s, format) && Idempotent(format) && KeepsMeaning(format, meaning)
    requires forall ev :: ev in evs ==> Spares(ev, p.ref, p.expiresAt)
    ensures var t := Run(Finish(s, Upsert(p), at, format), evs, format);
            && InStep(t, format)
            && p.ref in t.memory.payloads && Means(t.memory.payloads[p.ref], p, meaning)
            && Load(t.disk).Some? && p.ref in Load(t.disk).value.payloads
            && Means(Load(t.disk).value.payloads[p.ref], p, meaning)
  {
    var u := Finish(s, Upsert(p), at, format);
    FinishInStep(s, Upsert(p), at, format);
    RunInStep(u, evs, format);
    SyncedData(Run(u, evs, format).memory, Run(u, evs, format).disk, format);
    if evs != [] {
      var front, ev := evs[..|evs| - 1], evs[|evs| - 1];
      assert evs == front + [ev];
      StoredStays(s, p, at, front, format, meaning);
      SparedStep(Run(u, front, format), ev, format, p.ref, meaning);
    }
  }
}
