/** The node's files: written to a temporary name and renamed, read back when the store opens. */
module Storage {
  import opened Basics
  import opened Envelopes
  import opened Registers
  import opened Negotiations

  datatype StoredPayload = StoredPayload(
    ref: seq<byte>, ownerPeerID: string, kind: string, objectID: string, version: uint64, contentType: string,
    data: string, sha256: string, updatedAt: Time, expiresAt: Time)

  type Payloads = map<seq<byte>, StoredPayload>

  datatype KnownPeer = KnownPeer(id: string, addrs: seq<string>, lastSeen: Time)

  type Peers = map<string, KnownPeer>

  predicate PayloadLives(p: StoredPayload, now: Time) {
    p.expiresAt == ZERO_TIME || now <= p.expiresAt
  }

  function CollectPayloads(m: Payloads, now: Time): Payloads {
    map k | k in m && PayloadLives(m[k], now) :: m[k]
  }

  /** The persisted part of the memory. */
  datatype Image = Image(tasks: Tasks, facts: Facts, payloads: Payloads, sessions: Sessions, peers: Peers)

  const EMPTY_IMAGE := Image(map[], map[], map[], map[], map[])

  /** `GCExpired`, when nothing fails. */
  function CollectImage(m: Image, now: Time): Image {
    m.(tasks := CollectTasks(m.tasks, now), facts := CollectFacts(m.facts, now),
       payloads := CollectPayloads(m.payloads, now))
  }

  // ---------------------------------------------------------------- files

  datatype Part = TaskPart | FactPart | PayloadPart | SessionPart | PeerPart

  datatype FileName = Final(part: Part) | Temp(part: Part)

  /** What a file holds; a torn file is one whose write was cut short. */
  datatype Body = TaskBody(tasks: Tasks) | FactBody(facts: Facts) | PayloadBody(payloads: Payloads)
                | SessionBody(sessions: Sessions) | PeerBody(peers: Peers) | Torn

  type Disk = map<FileName, Body>

  datatype DiskOp = Write(name: FileName, body: Body) | Rename(from: FileName, to: FileName)

  function ApplyOp(d: Disk, op: DiskOp): Disk {
    match op
    case Write(name, body) => d[name := body]
    case Rename(from, to) => if from in d then (d - {from})[to := d[from]] else d
  }

  function ApplyOps(d: Disk, ops: seq<DiskOp>): Disk {
    if ops == [] then d else ApplyOp(ApplyOps(d, ops[..|ops| - 1]), ops[|ops| - 1])
  }

  /** One `writeJSONAtomic` call. */
  datatype Save = Save(part: Part, body: Body)

  function SaveOps(s: Save): seq<DiskOp> {
    [Write(Temp(s.part), s.body), Rename(Temp(s.part), Final(s.part))]
  }

  /** How a save ends: complete, or with an error before or after the temporary file was written. */
  datatype IO = Written | TempFails | RenameFails

  function AfterSave(d: Disk, s: Save, io: IO): Disk {
    match io
    case Written => ApplyOps(d, SaveOps(s))
    case TempFails => d[Temp(s.part) := Torn]
    case RenameFails => d[Temp(s.part) := s.body]
  }

  function AllOps(saves: seq<Save>): seq<DiskOp> {
    if saves == [] then [] else AllOps(saves[..|saves| - 1]) + SaveOps(saves[|saves| - 1])
  }

  /** Writing JSON reformats the raw payload data; `format` is that reformatting. */
  function Printed(m: Payloads, format: string -> string): Payloads {
    map k | k in m :: m[k].(data := format(m[k].data))
  }

  /** Reading back what was written and writing it again changes nothing more. */
  ghost predicate Idempotent(format: string -> string) {
    forall x :: format(format(x)) == format(x)
  }

  /** The files hold what their names say. */
  predicate Readable(d: Disk) {
    var t, f := Lookup(d, Final(TaskPart)), Lookup(d, Final(FactPart));
    var p, s, k := Lookup(d, Final(PayloadPart)), Lookup(d, Final(SessionPart)), Lookup(d, Final(PeerPart));
    && (t.None? || t.value.TaskBody?) && (f.None? || f.value.FactBody?) && (p.None? || p.value.PayloadBody?)
    && (s.None? || s.value.SessionBody?) && (k.None? || k.value.PeerBody?)
  }

  /** `load`: a missing file is an empty map, a damaged one an error. */
  function Load(d: Disk): Option<Image> {
    if !Readable(d) then None
    else
      var t, f := Lookup(d, Final(TaskPart)), Lookup(d, Final(FactPart));
      var p, s, k := Lookup(d, Final(PayloadPart)), Lookup(d, Final(SessionPart)), Lookup(d, Final(PeerPart));
      Some(Image(if t.None? then map[] else t.value.tasks, if f.None? then map[] else f.value.facts,
                 if p.None? then map[] else p.value.payloads, if s.None? then map[] else s.value.sessions,
                 if k.None? then map[] else k.value.peers))
  }

  /** What the disk holds is the memory, payload data reformatted. */
  predicate Synced(m: Image, d: Disk, format: string -> string) {
    Load(d) == Some(Reloaded(m, format))
  }

  /** The memory after a reload. */
  function Reloaded(m: Image, format: string -> string): Image {
    m.(payloads := Printed(m.payloads, format))
  }

  // ---------------------------------------------------------------- collection

  predicate TasksDue(m: Tasks, now: Time) {
    exists k :: k in m && now > m[k].expiresAt
  }

  predicate FactsDue(m: Facts, now: Time) {
    exists k :: k in m && now > m[k].expiresAt
  }

  predicate PayloadsDue(m: Payloads, now: Time) {
    exists k :: k in m && !PayloadLives(m[k], now)
  }

  function TaskSave(m: Tasks, now: Time): Save {
    Save(TaskPart, TaskBody(CollectTasks(m, now)))
  }

  function FactSave(m: Facts, now: Time): Save {
    Save(FactPart, FactBody(CollectFacts(m, now)))
  }

  function PayloadSave(m: Payloads, now: Time, format: string -> string): Save {
    Save(PayloadPart, PayloadBody(Printed(CollectPayloads(m, now), format)))
  }

  function IfDue(due: bool, s: Save): seq<Save> {
    if due then [s] else []
  }

  /** The saves a collection makes: only the parts that changed, payloads last. */
  function CollectSaves(m: Image, now: Time, format: string -> string): seq<Save> {
    IfDue(TasksDue(m.tasks, now), TaskSave(m.tasks, now)) + IfDue(FactsDue(m.facts, now), FactSave(m.facts, now))
    + IfDue(PayloadsDue(m.payloads, now), PayloadSave(m.payloads, now, format))
  }
}
