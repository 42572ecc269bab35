/** Payloads of overlapping publications: how long one stays, and when an own record has its own. */
module Availability {
  import opened Basics
  import opened Envelopes
  import opened Registers
  import opened Storage
  import opened Publishing
  import opened Overlap
  import Durability

  // ---------------------------------------------------------------- payloads

  /** The move stores a payload at the reference. */
  predicate StoresAt(s: Shop, m: Move, r: seq<byte>) {
    m.StoreDraft? && m.which < |s.drafts| && s.drafts[m.which].detailRef == r
  }

  ghost predicate NoStoreAt(self: Self, s: Shop, ms: seq<Move>, r: seq<byte>) {
    forall j :: 0 <= j < |ms| ==> !StoresAt(Acts(self, s, ms[..j]), ms[j], r)
  }

  /** Some collection of the run comes later than `t`. */
  ghost predicate LateSweep(self: Self, s: Shop, ms: seq<Move>, t: Time) {
    exists j :: 0 <= j < |ms| && SweepsAfter(Acts(self, s, ms[..j]), ms[j], t)
  }

  predicate SweepsAfter(s: Shop, m: Move, t: Time) {
    m.Sweep? && s.clock > t
  }

  lemma MoveKeepsPayload(self: Self, s: Shop, m: Move, r: seq<byte>)
    requires !StoresAt(s, m, r)
    ensures Lookup(Act(self, s, m).memory.payloads, r)
            == match Lookup(s.memory.payloads, r)
               case None => None
               case Some(p) => if m.Sweep? && !PayloadLives(p, s.clock) then None else Some(p)
  {}

  lemma LateSweepGrows(self: Self, s: Shop, front: seq<Move>, m: Move, t: Time)
    ensures LateSweep(self, s, front + [m], t)
            <==> LateSweep(self, s, front, t) || SweepsAfter(Acts(self, s, front), m, t)
  {
    var ms := front + [m];
    assert forall j :: 0 <= j < |front| ==> ms[..j] == front[..j] && ms[j] == front[j];
    assert ms[..|front|] == front && ms[|front|] == m;
  }

  lemma NoStoreShrinks(self: Self, s: Shop, front: seq<Move>, m: Move, r: seq<byte>)
    requires NoStoreAt(self, s, front + [m], r)
    ensures NoStoreAt(self, s, front, r) && !StoresAt(Acts(self, s, front), m, r)
  {
    var ms := front + [m];
    assert forall j :: 0 <= j < |front| ==> ms[..j] == front[..j] && ms[j] == front[j];
    assert ms[..|front|] == front && ms[|front|] == m;
  }

  lemma ActsAppend(self: Self, s: Shop, front: seq<Move>, m: Move)
    ensures Acts(self, s, front + [m]) == Act(self, Acts(self, s, front), m)
  {
    assert (front + [m])[..|front|] == front;
  }

  /** A stored payload stays exactly until a collection later than its expiry or the next store at its
      reference, whatever else happens. */
  lemma {:induction false} PayloadKeptExact(self: Self, s: Shop, ms: seq<Move>, r: seq<byte>, p: StoredPayload)
    requires Lookup(s.memory.payloads, r) == Some(p) && NoStoreAt(self, s, ms, r)
    ensures Lookup(Acts(self, s, ms).memory.payloads, r)
            == if p.expiresAt != ZERO_TIME && LateSweep(self, s, ms, p.expiresAt) then None else Some(p)
  {
    if ms != [] {
      var front, m := ms[..|ms| - 1], ms[|ms| - 1];
      assert ms == front + [m];
      NoStoreShrinks(self, s, front, m, r);
      PayloadKeptExact(self, s, front, r, p);
      ActsAppend(self, s, front, m);
      LateSweepGrows(self, s, front, m, p.expiresAt);
      MoveKeepsPayload(self, Acts(self, s, front), m, r);
    }
  }

  /** Among any number of overlapping publications the draft stored last at a reference decides. */
  lemma LastStoreDecides(self: Self, s: Shop, n: nat, data: string, digest: string, ms: seq<Move>)
    requires n < |s.drafts| && s.drafts[n].expiresAt != ZERO_TIME
    requires NoStoreAt(self, Act(self, s, StoreDraft(n, data, digest)), ms, s.drafts[n].detailRef)
    ensures var d := s.drafts[n];
            var t := Act(self, s, StoreDraft(n, data, digest));
            Lookup(Acts(self, t, ms).memory.payloads, d.detailRef)
            == if LateSweep(self, t, ms, d.expiresAt) then None else Some(PayloadOf(d, data, digest, s.clock))
  {
    var d := s.drafts[n];
    var t := Act(self, s, StoreDraft(n, data, digest));
    PayloadKeptExact(self, t, ms, d.detailRef, PayloadOf(d, data, digest, s.clock));
  }

  // ---------------------------------------------------------------- availability

  /** The draft stored last at each reference. */
  type Lasts = map<seq<byte>, Envelope>

  function LastDrafts(self: Self, s: Shop, ms: seq<Move>): Lasts {
    if ms == [] then map[]
    else
      LastAfter(Acts(self, s, ms[..|ms| - 1]), ms[|ms| - 1], LastDrafts(self, s, ms[..|ms| - 1]))
  }

  function LastAfter(s: Shop, m: Move, last: Lasts): Lasts {
    if m.StoreDraft? && m.which < |s.drafts| then last[s.drafts[m.which].detailRef := s.drafts[m.which]] else last
  }

  /** What the node hears under its own origin it has published before. */
  predicate FineToHear(self: Self, s: Shop, m: Move) {
    m.Hear? && m.env.origin == self.did ==> exists i :: i in s.stored && i < |s.drafts| && s.drafts[i] == m.env
  }

  ghost predicate HearsFine(self: Self, s: Shop, ms: seq<Move>) {
    forall j :: 0 <= j < |ms| ==> FineToHear(self, Acts(self, s, ms[..j]), ms[j])
  }

  /** An envelope of the node that was a draft and has been stored. */
  ghost predicate Stocked(self: Self, e: Envelope, drafts: seq<Envelope>, last: Lasts) {
    Own(self, e) && e in drafts && e.detailRef in last
  }

  ghost predicate LastFine(self: Self, d: Envelope, r: seq<byte>, s: Shop) {
    && Own(self, d) && d.detailRef == r && d in s.drafts
    && (Backed(d, s.memory.payloads) || (r !in s.memory.payloads && s.clock > d.expiresAt))
  }

  ghost predicate LastsFine(self: Self, s: Shop, last: Lasts) {
    forall r :: r in last ==> LastFine(self, last[r], r, s)
  }

  ghost predicate DraftsFine(self: Self, s: Shop, last: Lasts) {
    && (forall i :: 0 <= i < |s.drafts| ==> Own(self, s.drafts[i]))
    && (forall i :: i in s.stored ==> i < |s.drafts| && s.drafts[i].detailRef in last)
  }

  ghost predicate TaskStocked(self: Self, t: TaskState, k: string, drafts: seq<Envelope>, last: Lasts) {
    TaskMatches(t, k) && (t.origin == self.did ==> Stocked(self, t.envelope, drafts, last))
  }

  ghost predicate FactStocked(self: Self, f: FactState, k: string, drafts: seq<Envelope>, last: Lasts) {
    FactMatches(f, k) && (f.origin == self.did ==> Stocked(self, f.envelope, drafts, last))
  }

  ghost predicate RecordsStocked(self: Self, m: Image, drafts: seq<Envelope>, last: Lasts) {
    && (forall k :: k in m.tasks ==> TaskStocked(self, m.tasks[k], k, drafts, last))
    && (forall k :: k in m.facts ==> FactStocked(self, m.facts[k], k, drafts, last))
  }

  ghost predicate Accounted(self: Self, s: Shop, last: Lasts) {
    DraftsFine(self, s, last) && LastsFine(self, s, last) && RecordsStocked(self, s.memory, s.drafts, last)
  }

  lemma MoreStock(self: Self, m: Image, drafts: seq<Envelope>, last: Lasts,
                  drafts': seq<Envelope>, last': Lasts)
    requires RecordsStocked(self, m, drafts, last) && last.Keys <= last'.Keys
    requires forall d :: d in drafts ==> d in drafts'
    ensures RecordsStocked(self, m, drafts', last')
  {
    forall k | k in m.tasks ensures TaskStocked(self, m.tasks[k], k, drafts', last') {
      assert TaskStocked(self, m.tasks[k], k, drafts, last);
    }
    forall k | k in m.facts ensures FactStocked(self, m.facts[k], k, drafts', last') {
      assert FactStocked(self, m.facts[k], k, drafts, last);
    }
  }

  lemma ApplyStocked(self: Self, m: Image, e: Envelope, now: Time, drafts: seq<Envelope>, last: Lasts)
    requires RecordsStocked(self, m, drafts, last) && (e.origin == self.did ==> Stocked(self, e, drafts, last))
    ensures RecordsStocked(self, m.(tasks := ApplyTask(m.tasks, e, now)), drafts, last)
    ensures RecordsStocked(self, m.(facts := ApplyFact(m.facts, e, now)), drafts, last)
  {
    var tasks, facts := ApplyTask(m.tasks, e, now), ApplyFact(m.facts, e, now);
    forall k | k in tasks ensures TaskStocked(self, tasks[k], k, drafts, last) {
      if k in m.tasks {
        assert TaskStocked(self, m.tasks[k], k, drafts, last);
      }
    }
    forall k | k in facts ensures FactStocked(self, facts[k], k, drafts, last) {
      if k in m.facts {
        assert FactStocked(self, m.facts[k], k, drafts, last);
      }
    }
  }

  lemma OfferStocked(self: Self, m: Image, e: Envelope, now: Time, drafts: seq<Envelope>, last: Lasts)
    requires RecordsStocked(self, m, drafts, last) && (e.origin == self.did ==> Stocked(self, e, drafts, last))
    ensures RecordsStocked(self, Durability.Effect(m, Offer(e), now), drafts, last)
  {
    ApplyStocked(self, m, e, now, drafts, last);
  }

  lemma SweptStocked(self: Self, m: Image, now: Time, drafts: seq<Envelope>, last: Lasts)
    requires RecordsStocked(self, m, drafts, last)
    ensures RecordsStocked(self, CollectImage(m, now), drafts, last)
  {
    forall k | k in m.tasks ensures TaskStocked(self, ExpireTask(m.tasks[k], now), k, drafts, last) {
      assert TaskStocked(self, m.tasks[k], k, drafts, last);
    }
    forall k | k in m.facts ensures FactStocked(self, m.facts[k], k, drafts, last) {
      assert FactStocked(self, m.facts[k], k, drafts, last);
    }
  }

  /** Moves that store nothing keep what is known of each last draft. */
  lemma LastKept(self: Self, s: Shop, m: Move, d: Envelope, r: seq<byte>)
    requires LastFine(self, d, r, s) && !StoresAt(s, m, r)
    ensures LastFine(self, d, r, Act(self, s, m))
  {
    MoveKeepsPayload(self, s, m, r);
    DraftsStay(self, s, m);
  }

  lemma DraftsStay(self: Self, s: Shop, m: Move)
    ensures s.drafts <= Act(self, s, m).drafts && s.clock <= Act(self, s, m).clock
    ensures forall d :: d in s.drafts ==> d in Act(self, s, m).drafts
  {}

  lemma LastsKept(self: Self, s: Shop, m: Move, last: Lasts)
    requires LastsFine(self, s, last) && !m.StoreDraft?
    ensures LastsFine(self, Act(self, s, m), last)
  {
    forall r | r in last ensures LastFine(self, last[r], r, Act(self, s, m)) {
      LastKept(self, s, m, last[r], r);
    }
  }

  lemma ReadAccounted(self: Self, s: Shop, e: Envelope, last: Lasts)
    requires Accounted(self, s, last) && MayRead(self, s, e)
    ensures Accounted(self, Act(self, s, Read(e)), last)
  {
    LastsKept(self, s, Read(e), last);
    DraftOwn(self, View(s.clock, s.memory, Idle), e);
    DraftsStay(self, s, Read(e));
    MoreStock(self, s.memory, s.drafts, last, Act(self, s, Read(e)).drafts, last);
  }

  lemma StoreAccounted(self: Self, s: Shop, n: nat, data: string, digest: string, last: Lasts)
    requires Accounted(self, s, last) && n < |s.drafts|
    ensures Accounted(self, Act(self, s, StoreDraft(n, data, digest)), last[s.drafts[n].detailRef := s.drafts[n]])
  {
    var d := s.drafts[n];
    var last' := last[d.detailRef := d];
    MoreStock(self, s.memory, s.drafts, last, s.drafts, last');
    StoredRecords(self, s, n, data, digest, last');
    StoredLasts(self, s, n, data, digest, last);
  }

  /** Storing a payload changes no record. */
  lemma StoredRecords(self: Self, s: Shop, n: nat, data: string, digest: string, last: Lasts)
    requires n < |s.drafts| && RecordsStocked(self, s.memory, s.drafts, last)
    ensures var s' := Act(self, s, StoreDraft(n, data, digest)); RecordsStocked(self, s'.memory, s'.drafts, last)
  {}

  lemma StoredLasts(self: Self, s: Shop, n: nat, data: string, digest: string, last: Lasts)
    requires n < |s.drafts| && DraftsFine(self, s, last) && LastsFine(self, s, last)
    ensures LastsFine(self, Act(self, s, StoreDraft(n, data, digest)), last[s.drafts[n].detailRef := s.drafts[n]])
  {
    var s', d := Act(self, s, StoreDraft(n, data, digest)), s.drafts[n];
    var last' := last[d.detailRef := d];
    forall r | r in last' ensures LastFine(self, last'[r], r, s') {
      if r == d.detailRef {
        NewLast(self, s, n, data, digest);
      } else {
        LastKept(self, s, StoreDraft(n, data, digest), last[r], r);
      }
    }
  }

  lemma NewLast(self: Self, s: Shop, n: nat, data: string, digest: string)
    requires n < |s.drafts| && Own(self, s.drafts[n])
    ensures LastFine(self, s.drafts[n], s.drafts[n].detailRef, Act(self, s, StoreDraft(n, data, digest)))
  {}

  lemma OfferAccounted(self: Self, s: Shop, m: Move, e: Envelope, last: Lasts)
    requires Accounted(self, s, last) && (e.origin == self.did ==> Stocked(self, e, s.drafts, last))
    requires !m.StoreDraft? && Act(self, s, m) == ApplyLogged(s, e)
    ensures Accounted(self, Act(self, s, m), last)
  {
    OfferStocked(self, s.memory, e, s.clock, s.drafts, last);
    LastsKept(self, s, m, last);
  }

  lemma SweepAccounted(self: Self, s: Shop, last: Lasts)
    requires Accounted(self, s, last)
    ensures Accounted(self, Act(self, s, Sweep), last)
  {
    SweptStocked(self, s.memory, s.clock, s.drafts, last);
    LastsKept(self, s, Sweep, last);
  }

  lemma WaitAccounted(self: Self, s: Shop, ns: nat, last: Lasts)
    requires Accounted(self, s, last)
    ensures Accounted(self, Act(self, s, Wait(ns)), last)
  {
    LastsKept(self, s, Wait(ns), last);
  }

  lemma {:induction false} RunAccounted(self: Self, clock: Time, ms: seq<Move>)
    requires HearsFine(self, OpenShop(clock), ms)
    ensures Accounted(self, Acts(self, OpenShop(clock), ms), LastDrafts(self, OpenShop(clock), ms))
  {
    if ms != [] {
      var s0, n := OpenShop(clock), |ms| - 1;
      var front := ms[..n];
      assert forall j :: 0 <= j < n ==> front[..j] == ms[..j] && front[j] == ms[j];
      RunAccounted(self, clock, front);
      MoveAccounted(self, Acts(self, s0, front), ms[n], LastDrafts(self, s0, front));
    }
  }

  lemma MoveAccounted(self: Self, s: Shop, m: Move, last: Lasts)
    requires Accounted(self, s, last) && FineToHear(self, s, m)
    ensures Accounted(self, Act(self, s, m), LastAfter(s, m, last))
  {
    match m {
      case Wait(ns) =>
        WaitAccounted(self, s, ns, last);
      case Read(e) =>
        if MayRead(self, s, e) {
          ReadAccounted(self, s, e, last);
        }
      case StoreDraft(n, data, digest) =>
        if n < |s.drafts| {
          StoreAccounted(self, s, n, data, digest, last);
        }
      case ApplyDraft(n) =>
        if n < |s.drafts| && n in s.stored {
          OfferAccounted(self, s, m, s.drafts[n], last);
        }
      case Hear(e) =>
        if ValidateUnsigned(e).None? {
          OfferAccounted(self, s, m, e, last);
        }
      case Sweep =>
        SweepAccounted(self, s, last);
    }
  }

  /** The payload behind an unexpired envelope of the node. */
  lemma BackedExact(self: Self, s: Shop, e: Envelope, last: Lasts)
    requires '/' !in self.peer && Accounted(self, s, last) && Stocked(self, e, s.drafts, last) && s.clock <= e.expiresAt
    ensures Backed(e, s.memory.payloads) <==> last[e.detailRef].expiresAt == e.expiresAt
  {
    var d := last[e.detailRef];
    assert LastFine(self, d, e.detailRef, s);
    OwnRefInjective(self, d, e);
  }

  /** An unexpired record of the node's own holds the envelope. */
  ghost predicate LiveOwn(self: Self, s: Shop, e: Envelope) {
    || (exists k :: k in s.memory.tasks && OwnRecord(self, s, s.memory.tasks[k].envelope, s.memory.tasks[k].origin, e))
    || (exists k :: k in s.memory.facts && OwnRecord(self, s, s.memory.facts[k].envelope, s.memory.facts[k].origin, e))
  }

  predicate OwnRecord(self: Self, s: Shop, held: Envelope, origin: string, e: Envelope) {
    held == e && origin == self.did && s.clock <= e.expiresAt
  }

  lemma LiveIsStocked(self: Self, s: Shop, e: Envelope, last: Lasts)
    requires Accounted(self, s, last) && LiveOwn(self, s, e)
    ensures Stocked(self, e, s.drafts, last) && s.clock <= e.expiresAt
  {
    if k :| k in s.memory.tasks && OwnRecord(self, s, s.memory.tasks[k].envelope, s.memory.tasks[k].origin, e) {
      assert TaskStocked(self, s.memory.tasks[k], k, s.drafts, last);
    } else {
      var k :| k in s.memory.facts && OwnRecord(self, s, s.memory.facts[k].envelope, s.memory.facts[k].origin, e);
      assert FactStocked(self, s.memory.facts[k], k, s.drafts, last);
    }
  }

  /** However publications overlap, an unexpired own task or fact has its payload exactly when the
      publication stored last at its reference has the same expiry. */
  lemma AvailableExact(self: Self, clock: Time, ms: seq<Move>, e: Envelope)
    requires '/' !in self.peer && HearsFine(self, OpenShop(clock), ms)
    requires LiveOwn(self, Acts(self, OpenShop(clock), ms), e)
    ensures var s, last := Acts(self, OpenShop(clock), ms), LastDrafts(self, OpenShop(clock), ms);
            e.detailRef in last && (Backed(e, s.memory.payloads) <==> last[e.detailRef].expiresAt == e.expiresAt)
  {
    RunAccounted(self, clock, ms);
    var s, last := Acts(self, OpenShop(clock), ms), LastDrafts(self, OpenShop(clock), ms);
    LiveIsStocked(self, s, e, last);
    BackedExact(self, s, e, last);
  }

  /** Drafts with one reference, if there are any, expire at one instant. */
  ghost predicate NoClash(drafts: seq<Envelope>) {
    forall d, e :: d in drafts && e in drafts && d.detailRef == e.detailRef ==> d.expiresAt == e.expiresAt
  }

  /** In every interleaving in which no two drafts share a reference, or those that do expire together, all
      unexpired own tasks and facts have their payloads. */
  lemma DisjointAvailable(self: Self, clock: Time, ms: seq<Move>, e: Envelope)
    requires '/' !in self.peer && HearsFine(self, OpenShop(clock), ms)
    requires NoClash(Acts(self, OpenShop(clock), ms).drafts) && LiveOwn(self, Acts(self, OpenShop(clock), ms), e)
    ensures Backed(e, Acts(self, OpenShop(clock), ms).memory.payloads)
  {
    RunAccounted(self, clock, ms);
    var s, last := Acts(self, OpenShop(clock), ms), LastDrafts(self, OpenShop(clock), ms);
    LiveIsStocked(self, s, e, last);
    assert LastFine(self, last[e.detailRef], e.detailRef, s);
    AvailableExact(self, clock, ms, e);
  }

  // ---------------------------------------------------------------- two publications

  /** Two publications that read before either applies, and then store one after the other. */
  function BothStored(self: Self, s: Shop, a: Envelope, b: Envelope, x: string, y: string, digest: string): Shop {
    var n, read := |s.drafts|, Act(self, Act(self, s, Read(a)), Read(b));
    Act(self, Act(self, read, StoreDraft(n, x, digest)), StoreDraft(n + 1, y, digest))
  }

  /** Publications of one task that read in the same state. */
  ghost predicate ReadTogether(self: Self, s: Shop, a: Envelope, b: Envelope) {
    a.kind.KindTask? && b.kind.KindTask? && a.taskID == b.taskID && MayRead(self, s, a) && MayRead(self, s, b)
  }

  lemma SameNumber(self: Self, s: Shop, a: Envelope, b: Envelope)
    requires ReadTogether(self, s, a, b)
    ensures a.seqNo == b.seqNo != 0 && a.detailRef == b.detailRef
  {}

  lemma BothRead(self: Self, s: Shop, a: Envelope, b: Envelope)
    requires ReadTogether(self, s, a, b)
    ensures Act(self, Act(self, s, Read(a)), Read(b)) == s.(drafts := s.drafts + [a] + [b])
  {}

  /** The payload is then the second one's, and it is there exactly until a collection later than the second
      one's expiry, whatever follows: the first may be applied, and its record may live much longer. */
  lemma OverlapDecidedBySecond(self: Self, s: Shop, a: Envelope, b: Envelope, x: string, y: string, digest: string,
                               ms: seq<Move>)
    requires ReadTogether(self, s, a, b) && NoStoreAt(self, BothStored(self, s, a, b, x, y, digest), ms, a.detailRef)
    ensures var t := BothStored(self, s, a, b, x, y, digest);
            Lookup(Acts(self, t, ms).memory.payloads, a.detailRef)
            == if LateSweep(self, t, ms, b.expiresAt) then None else Some(PayloadOf(b, y, digest, s.clock))
  {
    var n, read := |s.drafts|, s.(drafts := s.drafts + [a] + [b]);
    SameNumber(self, s, a, b);
    BothRead(self, s, a, b);
    assert read.drafts[n + 1] == b;
    LastStoreDecides(self, Act(self, read, StoreDraft(n, x, digest)), n + 1, y, digest, ms);
  }

  lemma ThreeMoves(self: Self, s: Shop, a: Move, b: Move, c: Move)
    ensures Acts(self, s, [a, b, c]) == Act(self, Act(self, Act(self, s, a), b), c)
  {
    var one, two, three := [a], [a, b], [a, b, c];
    assert one[..0] == [] && two[..1] == one && three[..2] == two;
    assert Acts(self, s, one) == Act(self, s, a);
    assert Acts(self, s, two) == Act(self, Act(self, s, a), b);
  }

  /** For example, when the first is applied and a collection comes before its record expires: the record
      stays, and its payload goes exactly if the second publication has expired. */
  lemma OverlapLosesPayloadExact(self: Self, s: Shop, a: Envelope, b: Envelope, x: string, y: string,
                                 digest: string, ns: nat)
    requires ReadTogether(self, s, a, b) && s.clock + ns <= a.expiresAt
    requires TaskKey(a) in s.memory.tasks ==> !TerminalStatus(s.memory.tasks[TaskKey(a)].status)
    ensures var t := Acts(self, BothStored(self, s, a, b, x, y, digest), [ApplyDraft(|s.drafts|), Wait(ns), Sweep]);
            && Lookup(t.memory.tasks, TaskKey(a)) == Some(TaskRecord(a, s.clock))
            && Lookup(t.memory.payloads, a.detailRef)
               == (if t.clock <= b.expiresAt then Some(PayloadOf(b, y, digest, s.clock)) else None)
            && t.clock == s.clock + ns
  {
    var n, t := |s.drafts|, BothStored(self, s, a, b, x, y, digest);
    BothRead(self, s, a, b);
    SameNumber(self, s, a, b);
    assert t.drafts == s.drafts + [a] + [b] && n in t.stored && t.memory.tasks == s.memory.tasks && t.clock == s.clock;
    OwnIsApplied(self, s, a, t);
    ThreeMoves(self, t, ApplyDraft(n), Wait(ns), Sweep);
    SweptLater(self, Act(self, t, ApplyDraft(n)), a, PayloadOf(b, y, digest, s.clock), s.clock, ns);
  }

  /** A collection leaves the unexpired record alone and looks at the payload's expiry. */
  lemma SweptLater(self: Self, s: Shop, a: Envelope, p: StoredPayload, at: Time, ns: nat)
    requires Lookup(s.memory.tasks, TaskKey(a)) == Some(TaskRecord(a, at))
    requires Lookup(s.memory.payloads, a.detailRef) == Some(p) && p.expiresAt != ZERO_TIME
    requires s.clock + ns <= a.expiresAt
    ensures var t := Act(self, Act(self, s, Wait(ns)), Sweep);
            && Lookup(t.memory.tasks, TaskKey(a)) == Some(TaskRecord(a, at))
            && Lookup(t.memory.payloads, a.detailRef) == (if t.clock <= p.expiresAt then Some(p) else None)
            && t.clock == s.clock + ns
  {}

  lemma OwnIsApplied(self: Self, s: Shop, a: Envelope, t: Shop)
    requires a.kind.KindTask? && MayRead(self, s, a) && t.memory.tasks == s.memory.tasks && t.clock == s.clock
    requires TaskKey(a) in s.memory.tasks ==> !TerminalStatus(s.memory.tasks[TaskKey(a)].status)
    ensures ApplyTask(t.memory.tasks, a, t.clock) == s.memory.tasks[TaskKey(a) := TaskRecord(a, s.clock)]
  {}
}
