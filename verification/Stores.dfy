/** The node's store: maps updated in place, each change saved to its file. */
module Stores {
  import opened Basics
  import opened Envelopes
  import opened Registers
  import opened Storage
  import opened Recovery
  import opened Durability
  import Negotiations
  import RateLimit

  class Store {
    const format: string -> string
    var tasks: Tasks
    var facts: Facts
    var payloads: Payloads
    var negotiations: Negotiations.Sessions
    var peers: Peers
    var rates: RateLimit.Rates
    var disk: Disk

    constructor (disk: Disk, image: Image, format: string -> string)
      ensures this.disk == disk && Memory() == image && rates == map[] && this.format == format
    {
      this.disk, this.format := disk, format;
      tasks, facts, payloads := image.tasks, image.facts, image.payloads;
      negotiations, peers := image.sessions, image.peers;
      rates := map[];
    }

    /** `OpenStore`: fails when a file is damaged; rate windows start afresh. Opening a disk that some
        store's memory was in step with gives a store that is in step, too. */
    static method OpenStore(disk: Disk, format: string -> string) returns (s: Store?)
      ensures s == null <==> !Readable(disk)
      ensures s != null ==>
                && fresh(s) && Load(disk) == Some(s.Memory())
                && s.disk == disk && s.rates == map[] && s.format == format
                && (Idempotent(format) && (exists m :: Synced(m, disk, format)) ==> s.InSync())
    {
      var image := Load(disk);
      if image.None? {
        return null;
      }
      s := new Store(disk, image.value, format);
      if Idempotent(format) && exists m :: Synced(m, disk, format) {
        ghost var m :| Synced(m, disk, format);
        ReloadInStep(m, disk, format);
      }
    }

    /** The persisted part of the memory. */
    function Memory(): Image
      reads this
    {
      Image(tasks, facts, payloads, negotiations, peers)
    }

    /** Memory and disk. */
    function State(): Machine
      reads this
    {
      Machine(Memory(), disk)
    }

    /** Disk and memory agree. */
    ghost predicate InSync()
      reads this
    {
      Synced(Memory(), disk, format)
    }

    /** `persistLocked` and `writeJSONAtomic`. */
    method Persist(part: Part, body: Body, io: IO) returns (failed: bool)
      modifies this`disk
      ensures failed <==> io != Written
      ensures disk == AfterSave(old(disk), Save(part, body), io)
    {
      failed := io != Written;
      match io {
        case TempFails =>
          disk := disk[Temp(part) := Torn];
        case RenameFails =>
          disk := disk[Temp(part) := body];
        case Written =>
          ghost var ops := SaveOps(Save(part, body));
          assert ops[..1] == [ops[0]] && ops[..1][..0] == [];
          disk := disk[Temp(part) := body];
          assert disk == ApplyOps(old(disk), ops[..1]);
          disk := (disk - {Temp(part)})[Final(part) := body];
      }
    }

    method NextTaskSeq(origin: string, id: string) returns (n: uint64)
      ensures n == Registers.NextTaskSeq(tasks, origin, id)
      ensures var key := origin + "::" + id;
              if key !in tasks then n == 1
              else n == if tasks[key].lastSeq == 0xFFFF_FFFF_FFFF_FFFF then 0 else tasks[key].lastSeq + 1
    {
      var key := RecordKey(origin, id);
      if key in tasks {
        return Increment(tasks[key].lastSeq);
      }
      return 1;
    }

    method NextFactSeq(origin: string, id: string) returns (n: uint64)
      ensures n == Registers.NextFactSeq(facts, origin, id)
      ensures var key := origin + "::" + id;
              if key !in facts then n == 1
              else n == if facts[key].lastSeq == 0xFFFF_FFFF_FFFF_FFFF then 0 else facts[key].lastSeq + 1
    {
      var key := RecordKey(origin, id);
      if key in facts {
        return Increment(facts[key].lastSeq);
      }
      return 1;
    }

    /** `ApplyTask`: memory changes even when the save fails. */
    method ApplyTask(e: Envelope, now: Time, io: IO) returns (answer: Answer<TaskState>, failed: bool)
      modifies this`tasks, this`disk
      ensures tasks == Registers.ApplyTask(old(tasks), e, now)
      ensures answer.verdict == Applied ==>
                && e.origin + "::" + e.taskID in tasks && TaskSays(tasks[e.origin + "::" + e.taskID], e, now)
                && answer.state == Some(tasks[e.origin + "::" + e.taskID])
      ensures answer == TaskAnswer(old(tasks), e, now)
      ensures failed <==> answer.verdict == Applied && io != Written
      ensures State() == Attempted(old(State()), OfferTask(e), now, io, format)
      ensures old(InSync()) && !failed ==> InSync()
      ensures failed || answer.verdict != Applied ==> Load(disk) == old(Load(disk))
    {
      AttemptedOutcome(State(), OfferTask(e), now, io, format);
      AppliedTask(tasks, e, now);
      failed := false;
      if !e.kind.KindTask? {
        return Answer(None, NotThisKind), false;
      }
      if now > e.expiresAt {
        return Answer(None, Stale), false;
      }
      var key := TaskKey(e);
      if key in tasks {
        var current := tasks[key];
        if current.status == COMPLETE || current.status == WITHDRAWN {
          return Answer(Some(current), Terminal), false;
        }
        if e.seqNo <= current.lastSeq {
          return Answer(Some(current), ReplayOrOld), false;
        }
      }
      var status := ACTIVE;
      match e.op {
        case OpComplete => status := COMPLETE;
        case OpWithdraw => status := WITHDRAWN;
        case _ =>
      }
      var next := TaskState(key, e.origin, e.taskID, e.seqNo, status, e, now, e.expiresAt);
      tasks := tasks[key := next];
      answer := Answer(Some(next), Applied);
      failed := Persist(TaskPart, TaskBody(tasks), io);
    }

    method ApplyFact(e: Envelope, now: Time, io: IO) returns (answer: Answer<FactState>, failed: bool)
      modifies this`facts, this`disk
      ensures facts == Registers.ApplyFact(old(facts), e, now)
      ensures answer.verdict == Applied ==>
                && e.origin + "::" + e.factID in facts && FactSays(facts[e.origin + "::" + e.factID], e, now)
                && answer.state == Some(facts[e.origin + "::" + e.factID])
      ensures answer == FactAnswer(old(facts), e, now)
      ensures failed <==> answer.verdict == Applied && io != Written
      ensures State() == Attempted(old(State()), OfferFact(e), now, io, format)
      ensures old(InSync()) && !failed ==> InSync()
      ensures failed || answer.verdict != Applied ==> Load(disk) == old(Load(disk))
    {
      AttemptedOutcome(State(), OfferFact(e), now, io, format);
      AppliedFact(facts, e, now);
      failed := false;
      if !e.kind.KindAgentFact? {
        return Answer(None, NotThisKind), false;
      }
      if now > e.expiresAt {
        return Answer(None, Stale), false;
      }
      var key := FactKey(e);
      if key in facts && e.seqNo <= facts[key].lastSeq {
        return Answer(Some(facts[key]), ReplayOrOld), false;
      }
      var next := FactState(key, e.origin, e.factID, e.factKind, e.seqNo, e, now, e.expiresAt);
      facts := facts[key := next];
      answer := Answer(Some(next), Applied);
      failed := Persist(FactPart, FactBody(facts), io);
    }

    method UpsertPayload(p: StoredPayload, io: IO) returns (failed: bool)
      modifies this`payloads, this`disk
      ensures payloads == old(payloads)[p.ref := p]
      ensures failed <==> io != Written
      ensures old(InSync()) && !failed ==> DataOnDisk(disk, payloads, format)
      ensures State() == Attempted(old(State()), Upsert(p), ZERO_TIME, io, format)
      ensures old(InSync()) && !failed ==> InSync()
      ensures failed ==> Load(disk) == old(Load(disk))
    {
      AttemptedOutcome(State(), Upsert(p), ZERO_TIME, io, format);
      payloads := payloads[p.ref := p];
      failed := Persist(PayloadPart, PayloadBody(Printed(payloads, format)), io);
      if old(InSync()) && !failed {
        SyncedData(Memory(), disk, format);
      }
    }

    method Payload(ref: seq<byte>) returns (p: Option<StoredPayload>)
      ensures p == Lookup(payloads, ref)
    {
      p := if ref in payloads then Some(payloads[ref]) else None;
    }

    method AllowPeer(peer: string, limit: int, now: Time) returns (ok: bool)
      modifies this`rates
      ensures rates == RateLimit.CountCall(old(rates), peer, limit, now)
      ensures limit <= 0 || peer == "" ==> ok && rates == old(rates)
      ensures ok == RateLimit.Allows(old(rates), peer, limit, now)
    {
      if limit <= 0 || peer == "" {
        return true;
      }
      var rate := if peer in rates then rates[peer] else RateLimit.PeerRate(ZERO_TIME, 0);
      if rate.windowStart == ZERO_TIME || now - rate.windowStart >= MINUTE {
        rate := RateLimit.PeerRate(now, 0);
      }
      rate := rate.(count := rate.count + 1);
      rates := rates[peer := rate];
      ok := rate.count <= limit;
    }

    method RecordNegotiation(f: Negotiations.Frame, now: Time, io: IO) returns (failed: bool)
      modifies this`negotiations, this`disk
      ensures negotiations == Negotiations.RecordFrame(old(negotiations), f, now)
      ensures Negotiations.Logged(old(negotiations), negotiations, f, now)
      ensures failed <==> io != Written
      ensures State() == Attempted(old(State()), LogFrame(f), now, io, format)
      ensures old(InSync()) && !failed ==> InSync()
      ensures failed ==> Load(disk) == old(Load(disk))
    {
      AttemptedOutcome(State(), LogFrame(f), now, io, format);
      Negotiations.RecordLogs(negotiations, f, now);
      var session := Negotiations.Session("", "", "", Negotiations.Unknown(""), [], ZERO_TIME);
      if f.sessionID in negotiations {
        session := negotiations[f.sessionID];
      }
      session := session.(sessionID := f.sessionID, refID := f.refID);
      if f.fromPeer != "" {
        session := session.(peerID := f.fromPeer);
      }
      if f.toPeer != "" && session.peerID == "" {
        session := session.(peerID := f.toPeer);
      }
      session := session.(state := f.op, frames := session.frames + [f], updatedAt := now);
      negotiations := negotiations[f.sessionID := session];
      failed := Persist(SessionPart, SessionBody(negotiations), io);
    }

    method RecordPeer(id: string, addrs: seq<string>, now: Time, io: IO) returns (failed: bool)
      modifies this`peers, this`disk
      ensures peers == old(peers)[id := KnownPeer(id, addrs, now)]
      ensures failed <==> io != Written
      ensures State() == Attempted(old(State()), NotePeer(KnownPeer(id, addrs, now)), now, io, format)
      ensures old(InSync()) && !failed ==> InSync()
      ensures failed ==> Load(disk) == old(Load(disk))
    {
      AttemptedOutcome(State(), NotePeer(KnownPeer(id, addrs, now)), now, io, format);
      peers := peers[id := KnownPeer(id, addrs, now)];
      failed := Persist(PeerPart, PeerBody(peers), io);
    }

    /** The first loop of `GCExpired`; the map is visited in no particular order. */
    method MarkExpiredTasks(now: Time) returns (changed: bool)
      modifies this`tasks
      ensures tasks == CollectTasks(old(tasks), now)
      ensures changed <==> TasksDue(old(tasks), now)
    {
      changed := false;
      var todo := tasks.Keys;
      while todo != {}
        invariant todo <= tasks.Keys == old(tasks).Keys
        invariant forall k :: k in tasks ==>
                    tasks[k] == if k in todo then old(tasks)[k] else ExpireTask(old(tasks)[k], now)
        invariant changed <==> exists k :: k in old(tasks) && k !in todo && now > old(tasks)[k].expiresAt
        decreases todo
      {
        var key :| key in todo;
        todo := todo - {key};
        var task := tasks[key];
        if now > task.expiresAt {
          tasks := tasks[key := task.(status := EXPIRED)];
          changed := true;
        }
      }
    }

    method DeleteExpiredFacts(now: Time) returns (changed: bool)
      modifies this`facts
      ensures facts == CollectFacts(old(facts), now)
      ensures changed <==> FactsDue(old(facts), now)
    {
      changed := false;
      var todo := facts.Keys;
      while todo != {}
        invariant todo <= facts.Keys <= old(facts).Keys
        invariant forall k :: k in old(facts) ==>
                    && (k in facts <==> k in todo || now <= old(facts)[k].expiresAt)
                    && (k in facts ==> facts[k] == old(facts)[k])
        invariant changed <==> exists k :: k in old(facts) && k !in todo && now > old(facts)[k].expiresAt
        decreases todo
      {
        var key :| key in todo;
        todo := todo - {key};
        if now > facts[key].expiresAt {
          facts := facts - {key};
          changed := true;
        }
      }
    }

    method DeleteExpiredPayloads(now: Time) returns (changed: bool)
      modifies this`payloads
      ensures payloads == CollectPayloads(old(payloads), now)
      ensures changed <==> PayloadsDue(old(payloads), now)
    {
      changed := false;
      var todo := payloads.Keys;
      while todo != {}
        invariant todo <= payloads.Keys <= old(payloads).Keys
        invariant forall k :: k in old(payloads) ==>
                    && (k in payloads <==> k in todo || PayloadLives(old(payloads)[k], now))
                    && (k in payloads ==> payloads[k] == old(payloads)[k])
        invariant changed <==> exists k :: k in old(payloads) && k !in todo && !PayloadLives(old(payloads)[k], now)
        decreases todo
      {
        var key :| key in todo;
        todo := todo - {key};
        if payloads[key].expiresAt != ZERO_TIME && now > payloads[key].expiresAt {
          payloads := payloads - {key};
          changed := true;
        }
      }
    }

    method CollectTaskPart(now: Time, io: IO) returns (failed: bool)
      modifies this`tasks, this`disk
      ensures tasks == CollectTasks(old(tasks), now)
      ensures failed <==> TasksDue(old(tasks), now) && io != Written
      ensures !failed ==> disk == SaveIf(old(disk), TasksDue(old(tasks), now), TaskSave(old(tasks), now))
      ensures old(InSync()) ==> if failed then Synced(old(Memory()), disk, format) else InSync()
    {
      failed := false;
      var changed := MarkExpiredTasks(now);
      CollectWithoutDue(old(Memory()), now);
      if changed {
        if old(InSync()) {
          PartSaved(old(Memory()), disk, Memory(), Save(TaskPart, TaskBody(tasks)), io, format);
        }
        failed := Persist(TaskPart, TaskBody(tasks), io);
      }
    }

    method CollectFactPart(now: Time, io: IO) returns (failed: bool)
      modifies this`facts, this`disk
      ensures facts == CollectFacts(old(facts), now)
      ensures failed <==> FactsDue(old(facts), now) && io != Written
      ensures !failed ==> disk == SaveIf(old(disk), FactsDue(old(facts), now), FactSave(old(facts), now))
      ensures old(InSync()) ==> if failed then Synced(old(Memory()), disk, format) else InSync()
    {
      failed := false;
      var changed := DeleteExpiredFacts(now);
      CollectWithoutDue(old(Memory()), now);
      if changed {
        if old(InSync()) {
          PartSaved(old(Memory()), disk, Memory(), Save(FactPart, FactBody(facts)), io, format);
        }
        failed := Persist(FactPart, FactBody(facts), io);
      }
    }

    method CollectPayloadPart(now: Time, io: IO) returns (failed: bool)
      modifies this`payloads, this`disk
      ensures payloads == CollectPayloads(old(payloads), now)
      ensures failed <==> PayloadsDue(old(payloads), now) && io != Written
      ensures !failed ==>
                disk == SaveIf(old(disk), PayloadsDue(old(payloads), now), PayloadSave(old(payloads), now, format))
      ensures old(InSync()) ==> if failed then Synced(old(Memory()), disk, format) else InSync()
    {
      failed := false;
      var changed := DeleteExpiredPayloads(now);
      CollectWithoutDue(old(Memory()), now);
      if changed {
        if old(InSync()) {
          PartSaved(old(Memory()), disk, Memory(), PayloadSave(old(payloads), now, format), io, format);
        }
        failed := Persist(PayloadPart, PayloadBody(Printed(payloads, format)), io);
      }
    }

    /** The first two parts of a collection. */
    method CollectRecordParts(now: Time, saveTasks: IO, saveFacts: IO) returns (failed: bool)
      modifies this`tasks, this`facts, this`disk
      ensures var stop1 := TasksDue(old(tasks), now) && saveTasks != Written;
              var stop2 := stop1 || (FactsDue(old(facts), now) && saveFacts != Written);
              && tasks == CollectTasks(old(tasks), now)
              && facts == (if stop1 then old(facts) else CollectFacts(old(facts), now))
              && (failed <==> stop2)
              && (old(InSync()) ==> Synced(Partly(old(Memory()), now, !stop1, !stop2, false), disk, format))
      ensures old(InSync()) && !failed ==> InSync()
      ensures !failed ==> disk == SaveIf(SaveIf(old(disk), TasksDue(old(tasks), now), TaskSave(old(tasks), now)),
                                         FactsDue(old(facts), now), FactSave(old(facts), now))
    {
      PartlyNone(Memory(), now);
      failed := CollectTaskPart(now, saveTasks);
      if failed {
        return;
      }
      failed := CollectFactPart(now, saveFacts);
    }

    method CollectParts(now: Time, saveTasks: IO, saveFacts: IO, savePayloads: IO) returns (failed: bool)
      modifies this`tasks, this`facts, this`payloads, this`disk
      ensures var stop1 := TasksDue(old(tasks), now) && saveTasks != Written;
              var stop2 := stop1 || (FactsDue(old(facts), now) && saveFacts != Written);
              && tasks == CollectTasks(old(tasks), now)
              && facts == (if stop1 then old(facts) else CollectFacts(old(facts), now))
              && payloads == (if stop2 then old(payloads) else CollectPayloads(old(payloads), now))
              && (failed <==> stop2 || (PayloadsDue(old(payloads), now) && savePayloads != Written))
              && (old(InSync()) ==> Synced(Partly(old(Memory()), now, !stop1, !stop2, !failed), disk, format))
      ensures !failed ==>
                disk == SaveIf(SaveIf(SaveIf(old(disk), TasksDue(old(tasks), now), TaskSave(old(tasks), now)),
                                      FactsDue(old(facts), now), FactSave(old(facts), now)),
                               PayloadsDue(old(payloads), now), PayloadSave(old(payloads), now, format))
    {
      PartlyNone(Memory(), now);
      failed := CollectRecordParts(now, saveTasks, saveFacts);
      if failed {
        return;
      }
      assert Memory() == Partly(old(Memory()), now, true, true, false);
      failed := CollectPayloadPart(now, savePayloads);
      assert !failed ==> Memory() == Partly(old(Memory()), now, true, true, true);
    }

    /** `GCExpired`: a failed save ends it, leaving the later parts alone. */
    method GCExpired(now: Time, saveTasks: IO, saveFacts: IO, savePayloads: IO) returns (failed: bool)
      modifies this`tasks, this`facts, this`payloads, this`disk
      ensures var stop1 := TasksDue(old(tasks), now) && saveTasks != Written;
              var stop2 := stop1 || (FactsDue(old(facts), now) && saveFacts != Written);
              && tasks == CollectTasks(old(tasks), now)
              && facts == (if stop1 then old(facts) else CollectFacts(old(facts), now))
              && payloads == (if stop2 then old(payloads) else CollectPayloads(old(payloads), now))
              && (failed <==> stop2 || (PayloadsDue(old(payloads), now) && savePayloads != Written))
              && (old(InSync()) ==> Synced(Partly(old(Memory()), now, !stop1, !stop2, !failed), disk, format))
      ensures !failed ==> State() == Finish(old(State()), Collection, now, format)
      ensures old(InSync()) && !failed ==> InSync()
    {
      CollectionDisk(State(), format, now);
      FinishInStepIfSo(State(), Collection, now, format);
      failed := CollectParts(now, saveTasks, saveFacts, savePayloads);
    }
  }

  lemma PartlyNone(m: Image, now: Time)
    ensures Partly(m, now, false, false, false) == m
    ensures Partly(m, now, true, false, false) == m.(tasks := CollectTasks(m.tasks, now))
    ensures Partly(m, now, true, true, false)
            == m.(tasks := CollectTasks(m.tasks, now), facts := CollectFacts(m.facts, now))
    ensures Partly(m, now, true, true, true) == CollectImage(m, now)
  {}

  lemma CollectionDisk(s: Machine, format: string -> string, now: Time)
    ensures var m := s.memory;
            Finish(s, Collection, now, format)
            == Machine(CollectImage(m, now),
                       SaveIf(SaveIf(SaveIf(s.disk, TasksDue(m.tasks, now), TaskSave(m.tasks, now)),
                                     FactsDue(m.facts, now), FactSave(m.facts, now)),
                              PayloadsDue(m.payloads, now), PayloadSave(m.payloads, now, format)))
  {
    var m := s.memory;
    ThreeSaves(s.disk, TasksDue(m.tasks, now), TaskSave(m.tasks, now), FactsDue(m.facts, now), FactSave(m.facts, now),
               PayloadsDue(m.payloads, now), PayloadSave(m.payloads, now, format));
  }
}
