/** Crashes: what a reload finds after the machine stops anywhere inside a sequence of saves. */
module Recovery {
  import opened Basics
  import opened Registers
  import opened Storage

  /** The disk after a crash that lets `done` operations finish; `torn` tells whether the next one, if
      it is a write, got as far as damaging its temporary file. */
  function CrashDisk(d: Disk, ops: seq<DiskOp>, done: nat, torn: bool): Disk
    requires done <= |ops|
  {
    var d' := ApplyOps(d, ops[..done]);
    if torn && done < |ops| && ops[done].Write? then d'[ops[done].name := Torn] else d'
  }

  function FinalFile(d: Disk, p: Part): Option<Body> {
    Lookup(d, Final(p))
  }

  /** The body the last of the saves to part `p` leaves there. */
  function SavedFile(d: Disk, saves: seq<Save>, p: Part): Option<Body> {
    if saves == [] then FinalFile(d, p)
    else
      var last := saves[|saves| - 1];
      if last.part == p then Some(last.body) else SavedFile(d, saves[..|saves| - 1], p)
  }

  lemma {:induction false} OpsLength(saves: seq<Save>, n: nat)
    requires n <= |saves|
    ensures |AllOps(saves)| == 2 * |saves|
    ensures AllOps(saves)[..2 * n] == AllOps(saves[..n])
    ensures n < |saves| ==> AllOps(saves)[2 * n..2 * n + 2] == SaveOps(saves[n])
    decreases |saves|
  {
    if saves != [] {
      var front := saves[..|saves| - 1];
      OpsLength(front, if n < |saves| then n else |front|);
      if n < |saves| {
        assert front[..n] == saves[..n];
        if n < |front| {
          assert AllOps(saves)[2 * n..2 * n + 2] == AllOps(front)[2 * n..2 * n + 2];
        }
      } else {
        assert saves[..n] == saves;
      }
    }
  }

  lemma {:induction false} AllSaved(d: Disk, saves: seq<Save>, p: Part)
    ensures FinalFile(ApplyOps(d, AllOps(saves)), p) == SavedFile(d, saves, p)
  {
    if saves != [] {
      var front, last := saves[..|saves| - 1], saves[|saves| - 1];
      AllSaved(d, front, p);
      var ops := AllOps(saves);
      var n := |ops|;
      assert ops[..n - 1][..n - 2] == AllOps(front) && ops[..n - 1][n - 2] == SaveOps(last)[0];
      assert ops[n - 1] == SaveOps(last)[1];
      assert ApplyOps(d, ops[..n - 1]) == ApplyOp(ApplyOps(d, AllOps(front)), SaveOps(last)[0]);
    }
  }

  lemma AppendSave(d: Disk, saves: seq<Save>, s: Save)
    ensures ApplyOps(d, AllOps(saves + [s])) == ApplyOps(ApplyOps(d, AllOps(saves)), SaveOps(s))
  {
    var front, ops := AllOps(saves), AllOps(saves + [s]);
    assert (saves + [s])[..|saves|] == saves;
    var n := |ops|;
    assert ops[..n - 1][..n - 2] == front && ops[..n - 1][n - 2] == SaveOps(s)[0] && ops[n - 1] == SaveOps(s)[1];
    assert SaveOps(s)[..1][..0] == [] && SaveOps(s)[..1] == [SaveOps(s)[0]];
    var d' := ApplyOps(d, front);
    assert ApplyOps(d', SaveOps(s)[..1]) == ApplyOp(d', SaveOps(s)[0]);
    assert ApplyOps(d, ops[..n - 1]) == ApplyOp(d', SaveOps(s)[0]);
    assert ApplyOps(d, ops) == ApplyOp(ApplyOps(d, ops[..n - 1]), SaveOps(s)[1]);
  }

  function SaveIf(d: Disk, due: bool, s: Save): Disk {
    if due then ApplyOps(d, SaveOps(s)) else d
  }

  lemma SavedIfDue(d: Disk, saves: seq<Save>, due: bool, s: Save)
    ensures ApplyOps(d, AllOps(saves + IfDue(due, s))) == SaveIf(ApplyOps(d, AllOps(saves)), due, s)
  {
    if due {
      AppendSave(d, saves, s);
    } else {
      assert saves + IfDue(due, s) == saves;
    }
  }

  lemma ThreeSaves(d: Disk, a: bool, s: Save, b: bool, t: Save, c: bool, u: Save)
    ensures SaveIf(SaveIf(SaveIf(d, a, s), b, t), c, u) == ApplyOps(d, AllOps(IfDue(a, s) + IfDue(b, t) + IfDue(c, u)))
  {
    var one := IfDue(a, s);
    var two := one + IfDue(b, t);
    assert [] + one == one && AllOps([]) == [];
    SavedIfDue(d, [], a, s);
    SavedIfDue(d, one, b, t);
    SavedIfDue(d, two, c, u);
  }

  /** A crash between two saves, or while the next temporary file is written. */
  lemma CrashBeforeSave(d: Disk, saves: seq<Save>, n: nat, torn: bool, p: Part)
    requires n <= |saves| && |AllOps(saves)| == 2 * |saves|
    ensures FinalFile(CrashDisk(d, AllOps(saves), 2 * n, torn), p) == SavedFile(d, saves[..n], p)
  {
    OpsLength(saves, n);
    AllSaved(d, saves[..n], p);
    var ops := AllOps(saves);
    if n < |saves| {
      assert ops[2 * n..2 * n + 2][0] == ops[2 * n];
    }
  }

  /** A crash before the rename. */
  lemma CrashBeforeRename(d: Disk, saves: seq<Save>, n: nat, torn: bool, p: Part)
    requires n < |saves| && |AllOps(saves)| == 2 * |saves|
    ensures FinalFile(CrashDisk(d, AllOps(saves), 2 * n + 1, torn), p) == SavedFile(d, saves[..n], p)
  {
    OpsLength(saves, n);
    AllSaved(d, saves[..n], p);
    var ops := AllOps(saves);
    var first := ops[..2 * n + 1];
    assert ops[2 * n..2 * n + 2][0] == ops[2 * n] && ops[2 * n..2 * n + 2][1] == ops[2 * n + 1];
    assert first[..2 * n] == ops[..2 * n] && first[2 * n] == SaveOps(saves[n])[0];
  }

  /** A crash inside a sequence of saves leaves every file as the saves completed so far left it. */
  lemma CrashBetweenSaves(d: Disk, saves: seq<Save>, done: nat, torn: bool, p: Part)
    requires done <= |AllOps(saves)|
    ensures done / 2 <= |saves|
    ensures FinalFile(CrashDisk(d, AllOps(saves), done, torn), p) == SavedFile(d, saves[..done / 2], p)
  {
    OpsLength(saves, 0);
    if done % 2 == 0 {
      CrashBeforeSave(d, saves, done / 2, torn, p);
    } else {
      CrashBeforeRename(d, saves, done / 2, torn, p);
    }
  }

  /** A failed save leaves every file alone; a complete one replaces its own. */
  lemma SaveOutcome(d: Disk, s: Save, io: IO)
    ensures forall p ::
              FinalFile(AfterSave(d, s, io), p) == if io.Written? && p == s.part then Some(s.body) else FinalFile(d, p)
    ensures !io.Written? ==> Load(AfterSave(d, s, io)) == Load(d)
  {
    if io.Written? {
      var ops := SaveOps(s);
      assert ops[..2] == ops;
      forall p ensures FinalFile(AfterSave(d, s, io), p) == if p == s.part then Some(s.body) else FinalFile(d, p) {
        SaveAtomic(d, s, 2, false, p);
      }
    }
  }

  /** Loading the disk gives exactly these payloads, the data of each one reformatted. */
  ghost predicate DataOnDisk(d: Disk, m: Payloads, format: string -> string) {
    && Load(d).Some? && Load(d).value.payloads.Keys == m.Keys
    && (forall k :: k in m ==> Load(d).value.payloads[k] == m[k].(data := format(m[k].data)))
  }

  lemma SyncedData(m: Image, d: Disk, format: string -> string)
    requires Synced(m, d, format)
    ensures DataOnDisk(d, m.payloads, format)
  {}

  /** One save is atomic: a crash leaves the old contents or the new, and touches no other file. */
  lemma SaveAtomic(d: Disk, s: Save, done: nat, torn: bool, p: Part)
    requires done <= |SaveOps(s)|
    ensures FinalFile(CrashDisk(d, SaveOps(s), done, torn), p)
            == if done == 2 && p == s.part then Some(s.body) else FinalFile(d, p)
  {
    var saves := [s];
    assert saves[..0] == [] && AllOps([]) == [];
    assert AllOps(saves) == SaveOps(s);
    CrashBetweenSaves(d, saves, done, torn, p);
    if done == 2 {
      assert saves[..1] == saves;
    }
  }

  // ---------------------------------------------------------------- collection

  /** Equal up to the formatting of the raw payload data. */
  ghost predicate SameButData(a: Image, b: Image) {
    && a.tasks == b.tasks && a.facts == b.facts && a.sessions == b.sessions && a.peers == b.peers
    && a.payloads.Keys == b.payloads.Keys
    && (forall k :: k in a.payloads ==> a.payloads[k].(data := "") == b.payloads[k].(data := ""))
  }

  /** The memory as it stands when the first `n` parts of a collection are done. */
  function Partly(m: Image, now: Time, tasks: bool, facts: bool, payloads: bool): Image {
    var m' := CollectImage(m, now);
    m.(tasks := if tasks then m'.tasks else m.tasks, facts := if facts then m'.facts else m.facts,
       payloads := if payloads then m'.payloads else m.payloads)
  }

  lemma CollectWithoutDue(m: Image, now: Time)
    ensures !TasksDue(m.tasks, now) ==> CollectTasks(m.tasks, now) == m.tasks
    ensures !FactsDue(m.facts, now) ==> CollectFacts(m.facts, now) == m.facts
    ensures !PayloadsDue(m.payloads, now) ==> CollectPayloads(m.payloads, now) == m.payloads
  {}

  /** What a collection that got as far as the flags say leaves in part `q`. */
  function PartFile(m: Image, d: Disk, format: string -> string, now: Time, t: bool, f: bool, p: bool,
                    q: Part): Option<Body>
  {
    match q
    case TaskPart => if t && TasksDue(m.tasks, now) then Some(TaskBody(CollectTasks(m.tasks, now))) else FinalFile(d, q)
    case FactPart => if f && FactsDue(m.facts, now) then Some(FactBody(CollectFacts(m.facts, now))) else FinalFile(d, q)
    case PayloadPart =>
      if p && PayloadsDue(m.payloads, now) then Some(PayloadBody(Printed(CollectPayloads(m.payloads, now), format)))
      else FinalFile(d, q)
    case _ => FinalFile(d, q)
  }

  lemma CollectionFiles(m: Image, d: Disk, format: string -> string, now: Time, n: nat, q: Part)
    requires n <= |CollectSaves(m, now, format)|
    ensures var i := if TasksDue(m.tasks, now) then 1 else 0;
            var j := if FactsDue(m.facts, now) then i + 1 else i;
            SavedFile(d, CollectSaves(m, now, format)[..n], q)
            == PartFile(m, d, format, now, n >= i, n >= j, n >= |CollectSaves(m, now, format)|, q)
  {
    SavedPrefix(d, CollectSaves(m, now, format), n, q);
  }

  /** The file's contents are part `q` of the memory. */
  predicate Holds(b: Option<Body>, m: Image, q: Part, format: string -> string) {
    match q
    case TaskPart => b == Some(TaskBody(m.tasks)) || (b == None && m.tasks == map[])
    case FactPart => b == Some(FactBody(m.facts)) || (b == None && m.facts == map[])
    case PayloadPart =>
      b == Some(PayloadBody(Printed(m.payloads, format))) || (b == None && Printed(m.payloads, format) == map[])
    case SessionPart => b == Some(SessionBody(m.sessions)) || (b == None && m.sessions == map[])
    case PeerPart => b == Some(PeerBody(m.peers)) || (b == None && m.peers == map[])
  }

  /** Disk and memory agree exactly when they agree part by part. */
  lemma SyncedByPart(m: Image, d: Disk, format: string -> string)
    ensures Synced(m, d, format) <==> forall q :: Holds(FinalFile(d, q), m, q, format)
  {
    if forall q :: Holds(FinalFile(d, q), m, q, format) {
      assert Holds(FinalFile(d, TaskPart), m, TaskPart, format) && Holds(FinalFile(d, FactPart), m, FactPart, format);
      assert Holds(FinalFile(d, PayloadPart), m, PayloadPart, format);
      assert Holds(FinalFile(d, SessionPart), m, SessionPart, format);
      assert Holds(FinalFile(d, PeerPart), m, PeerPart, format);
    }
  }

  lemma FilesMakeImage(m: Image, d: Disk, format: string -> string, now: Time, t: bool, f: bool, p: bool, crashed: Disk)
    requires Synced(m, d, format)
    requires forall q :: FinalFile(crashed, q) == PartFile(m, d, format, now, t, f, p, q)
    ensures Synced(Partly(m, now, t, f, p), crashed, format)
  {
    SyncedByPart(m, d, format);
    SyncedByPart(Partly(m, now, t, f, p), crashed, format);
    forall q ensures Holds(FinalFile(crashed, q), Partly(m, now, t, f, p), q, format) {
      assert Holds(FinalFile(d, q), m, q, format);
      PartHolds(m, d, format, now, t, f, p, q);
    }
  }

  lemma PartHolds(m: Image, d: Disk, format: string -> string, now: Time, t: bool, f: bool, p: bool, q: Part)
    requires Holds(FinalFile(d, q), m, q, format)
    ensures Holds(PartFile(m, d, format, now, t, f, p, q), Partly(m, now, t, f, p), q, format)
  {
    CollectWithoutDue(m, now);
  }

  /** A reload after a crash inside a collection finds some prefix of its parts done, payloads only
      once tasks and facts are. */
  lemma CrashedCollection(m: Image, d: Disk, format: string -> string, now: Time, done: nat, torn: bool)
    returns (t: bool, f: bool, p: bool)
    requires Synced(m, d, format)
    requires done <= |AllOps(CollectSaves(m, now, format))|
    ensures Synced(Partly(m, now, t, f, p), CrashDisk(d, AllOps(CollectSaves(m, now, format)), done, torn), format)
    ensures (p ==> f) && (f ==> t)
    ensures done == |AllOps(CollectSaves(m, now, format))| ==> t && f && p
  {
    var saves := CollectSaves(m, now, format);
    OpsLength(saves, 0);
    var n := done / 2;
    var i := if TasksDue(m.tasks, now) then 1 else 0;
    var j := if FactsDue(m.facts, now) then i + 1 else i;
    t, f, p := n >= i, n >= j, n >= |saves|;
    var crashed := CrashDisk(d, AllOps(saves), done, torn);
    forall q ensures FinalFile(crashed, q) == PartFile(m, d, format, now, t, f, p, q) {
      CrashBetweenSaves(d, saves, done, torn, q);
      CollectionFiles(m, d, format, now, n, q);
    }
    FilesMakeImage(m, d, format, now, t, f, p, crashed);
  }

  lemma SavedPrefix(d: Disk, saves: seq<Save>, n: nat, p: Part)
    requires n <= |saves| <= 3
    ensures SavedFile(d, saves[..n], p) ==
            if n > 2 && saves[2].part == p then Some(saves[2].body)
            else if n > 1 && saves[1].part == p then Some(saves[1].body)
            else if n > 0 && saves[0].part == p then Some(saves[0].body)
            else FinalFile(d, p)
  {
    assert SavedFile(d, saves[..0], p) == FinalFile(d, p);
    if n > 0 {
      assert saves[..1][..0] == saves[..0];
      assert SavedFile(d, saves[..1], p) == if saves[0].part == p then Some(saves[0].body) else FinalFile(d, p);
    }
    if n > 1 {
      assert saves[..2][..1] == saves[..1];
      assert SavedFile(d, saves[..2], p)
             == if saves[1].part == p then Some(saves[1].body) else SavedFile(d, saves[..1], p);
    }
    if n > 2 {
      assert saves[..3][..2] == saves[..2];
    }
  }

  /** Collecting later absorbs any part of an earlier collection. */
  lemma LaterCollectionAbsorbs(m: Image, now: Time, later: Time, t: bool, f: bool, p: bool)
    requires now <= later
    ensures CollectImage(Partly(m, now, t, f, p), later) == CollectImage(m, later)
  {}

  lemma CollectReloaded(m: Image, now: Time, format: string -> string)
    ensures SameButData(CollectImage(Reloaded(m, format), now), CollectImage(m, now))
  {}

  /** A crash at any point of a collection, a reload and a collection at a later time leave what an
      uninterrupted collection at that time leaves, up to the formatting of payload data. */
  lemma CrashRecovery(m: Image, d: Disk, format: string -> string, now: Time, later: Time, done: nat, torn: bool)
    requires Synced(m, d, format) && now <= later
    requires done <= |AllOps(CollectSaves(m, now, format))|
    ensures var found := Load(CrashDisk(d, AllOps(CollectSaves(m, now, format)), done, torn));
            found.Some? && SameButData(CollectImage(found.value, later), CollectImage(m, later))
  {
    var t, f, p := CrashedCollection(m, d, format, now, done, torn);
    LaterCollectionAbsorbs(m, now, later, t, f, p);
    CollectReloaded(Partly(m, now, t, f, p), later, format);
  }
}
