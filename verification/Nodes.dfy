/** The node: what it publishes, what it accepts from gossip, and how it negotiates. */
module Nodes {
  import opened Basics
  import opened Envelopes
  import opened Registers
  import opened Storage
  import opened Stores
  import Negotiations
  import RateLimit
  import Topics
  import DetailRefs

  datatype Policy = Policy(confMin: int, topicLimit: int, msgSizeLimit: int, requireSignature: bool, rateLimit: int)

  /** `Policy.Normalize`: defaults for everything that is not positive. */
  function Normalized(p: Policy): (r: Policy)
    ensures r.confMin > 0 && r.topicLimit > 0 && r.msgSizeLimit > 0 && r.rateLimit > 0
    ensures p.confMin > 0 && p.topicLimit > 0 && p.msgSizeLimit > 0 && p.rateLimit > 0 ==> r == p
    ensures p.confMin <= 0 ==> r.confMin == 700
    ensures p.topicLimit <= 0 ==> r.topicLimit == 8
    ensures p.msgSizeLimit <= 0 ==> r.msgSizeLimit == 1024
    ensures p.rateLimit <= 0 ==> r.rateLimit == 120
    ensures r.requireSignature == p.requireSignature
  {
    Policy(if p.confMin <= 0 then 700 else p.confMin, if p.topicLimit <= 0 then 8 else p.topicLimit,
           if p.msgSizeLimit <= 0 then 1024 else p.msgSizeLimit, p.requireSignature,
           if p.rateLimit <= 0 then 120 else p.rateLimit)
  }

  /** What the outside world contributes to one check: the encoded size, how keys and signatures
      are read, and the signatures made so far. */
  datatype Context = Context(size: nat, read: Readers, book: set<Signed>)

  datatype Refusal = TooManyTopics | LowConfidence | TooBig | BadPublisher(defect: Defect) | RateExceeded

  /** The checks of `enforceEnvelopePolicy` that come before the rate limit: nothing is refused exactly when
      topics, confidence and size are within the policy and a required signature is good. */
  function StaticRefusal(p: Policy, e: Envelope, c: Context): (r: Option<Refusal>)
    ensures r.None? <==>
              && |e.topics| <= p.topicLimit && e.conf >= p.confMin
              && c.size <= MAX_ENVELOPE_SIZE && c.size <= p.msgSizeLimit
              && (p.requireSignature ==> SignedByOrigin(e, c.size, c.read, c.book))
    ensures r == Some(TooManyTopics) <==> |e.topics| > p.topicLimit
    ensures r == Some(LowConfidence) ==> e.conf < p.confMin
    ensures r == Some(TooBig) ==> c.size > MAX_ENVELOPE_SIZE || c.size > p.msgSizeLimit
    ensures r.Some? && r.value.BadPublisher? ==> p.requireSignature && !SignedByOrigin(e, c.size, c.read, c.book)
    ensures r != Some(RateExceeded)
  {
    if |e.topics| > p.topicLimit then Some(TooManyTopics)
    else if e.conf < p.confMin then Some(LowConfidence)
    else if c.size > MAX_ENVELOPE_SIZE || c.size > p.msgSizeLimit then Some(TooBig)
    else if p.requireSignature && VerifyPublisher(e, c.size, c.read, c.book).Some?
    then Some(BadPublisher(VerifyPublisher(e, c.size, c.read, c.book).value))
    else None
  }

  predicate Metered(p: Policy, self: string, e: Envelope, c: Context, inbound: bool) {
    StaticRefusal(p, e, c).None? && inbound && e.publisher != self
  }

  function PolicyRefusal(p: Policy, self: string, e: Envelope, c: Context, inbound: bool, rates: RateLimit.Rates,
                         now: Time): Option<Refusal>
  {
    if StaticRefusal(p, e, c).Some? then StaticRefusal(p, e, c)
    else if inbound && e.publisher != self && !RateLimit.Allows(rates, e.publisher, p.rateLimit, now)
    then Some(RateExceeded)
    else None
  }

  /** The peer has used up its calls in the window that is running at `now`. */
  predicate OverLimit(rates: RateLimit.Rates, peer: string, limit: int, now: Time) {
    && peer != "" && limit > 0 && peer in rates
    && rates[peer].windowStart != ZERO_TIME && now - rates[peer].windowStart < 60_000_000_000
    && rates[peer].count >= limit
  }

  /** The rate is refused exactly when all other checks pass, the envelope is someone else's, and its publisher
      has used up its calls. */
  lemma RateRefusedExact(p: Policy, self: string, e: Envelope, c: Context, inbound: bool, rates: RateLimit.Rates,
                         now: Time)
    requires p.rateLimit > 0
    ensures PolicyRefusal(p, self, e, c, inbound, rates, now) == Some(RateExceeded)
            <==> StaticRefusal(p, e, c).None? && inbound && e.publisher != self
                 && OverLimit(rates, e.publisher, p.rateLimit, now)
    ensures PolicyRefusal(p, self, e, c, inbound, rates, now) == None
            <==> StaticRefusal(p, e, c).None?
                 && !(inbound && e.publisher != self && OverLimit(rates, e.publisher, p.rateLimit, now))
  {}

  /** What receiving an envelope changes at a node. */
  datatype Member = Member(tasks: Tasks, facts: Facts, rates: RateLimit.Rates)

  /** `handleEnvelope`: count the call if it is metered, and offer an admitted envelope to the register of
      its kind. */
  function Handle(p: Policy, self: string, m: Member, e: Envelope, c: Context, inbound: bool, now: Time,
                  applyAt: Time): Member
  {
    var rates :=
      if Metered(p, self, e, c, inbound) then RateLimit.CountCall(m.rates, e.publisher, p.rateLimit, now) else m.rates;
    if PolicyRefusal(p, self, e, c, inbound, m.rates, now).Some? then m.(rates := rates)
    else Member(ApplyTask(m.tasks, e, applyAt), ApplyFact(m.facts, e, applyAt), rates)
  }

  const DEFAULT_TTL: nat := 24 * 60 * MINUTE

  function Lifetime(ttl: int): (r: nat)
    ensures r > 0
  {
    if ttl <= 0 then DEFAULT_TTL else ttl
  }

  datatype TaskInput = TaskInput(
    taskID: string, op: TaskOp, taxonomy: string, topics: seq<string>, summary: string,
    detail: Option<string>, ttl: int, conf: int)

  datatype FactInput = FactInput(
    factID: string, factKind: string, taxonomy: string, topics: seq<string>, summary: string,
    detail: Option<string>, ttl: int, conf: int)

  /** `NewTaskSAE`: its reference and expiry are those of the payload stored with it. */
  function TaskDraft(did: string, peer: string, id: string, op: TaskOp, i: TaskInput, topics: seq<string>, n: uint64,
                     now: Time): Envelope
  {
    Envelope(KindTask, did, peer, n, topics, i.summary, DetailRefs.BuildDetailRef(peer, "task", id, n),
             now + Lifetime(i.ttl), "", id, op, i.taxonomy, i.conf, "", "")
  }

  function FactDraft(did: string, peer: string, id: string, i: FactInput, topics: seq<string>, n: uint64,
                     now: Time): Envelope
  {
    Envelope(KindAgentFact, did, peer, n, topics, i.summary, DetailRefs.BuildDetailRef(peer, "fact", id, n),
             now + Lifetime(i.ttl), "", "", OtherOp(""), i.taxonomy, i.conf, id, i.factKind)
  }

  function PayloadFor(e: Envelope, kind: string, id: string, data: string, digest: string, now: Time): StoredPayload {
    StoredPayload(e.detailRef, e.publisher, kind, id, e.seqNo, "application/json", data, digest, now, e.expiresAt)
  }

  function OpToPublish(op: TaskOp): TaskOp {
    if op == OtherOp("") then OpUpsert else op
  }

  /** The id the caller gave, or the fresh one. */
  function IDToPublish(given: string, w: World): string {
    if given == "" then w.freshID else given
  }

  /** The expiry of an envelope made at `made`: the lifetime asked for if it is positive, else 24 hours. */
  function ExpiryFor(made: Time, ttl: int): Time {
    made + if ttl > 0 then ttl else 86_400_000_000_000
  }

  /** The envelope says what the caller asked for. */
  ghost predicate TaskAsAsked(e: Envelope, did: string, peer: string, i: TaskInput, w: World) {
    && e.kind == KindTask && e.origin == did && e.publisher == peer && e.sig == w.sig
    && e.detailRef == DetailRefs.BuildDetailRef(peer, "task", e.taskID, e.seqNo)
    && e.taskID == IDToPublish(i.taskID, w) && e.op == (if i.op == OtherOp("") then OpUpsert else i.op)
    && e.taxonomy == i.taxonomy && e.summary == i.summary && e.conf == i.conf
    && e.expiresAt == ExpiryFor(w.made, i.ttl) && e.factID == "" && e.factKind == ""
  }

  ghost predicate FactAsAsked(e: Envelope, did: string, peer: string, i: FactInput, w: World) {
    && e.kind == KindAgentFact && e.origin == did && e.publisher == peer && e.sig == w.sig
    && e.detailRef == DetailRefs.BuildDetailRef(peer, "fact", e.factID, e.seqNo)
    && e.factID == IDToPublish(i.factID, w) && e.factKind == i.factKind
    && e.taxonomy == i.taxonomy && e.summary == i.summary && e.conf == i.conf
    && e.expiresAt == ExpiryFor(w.made, i.ttl) && e.taskID == ""
  }

  /** The payload behind the envelope's reference is the detail the caller gave. */
  ghost predicate DetailStored(m: Payloads, e: Envelope, kind: string, id: string, detail: string, w: World) {
    Lookup(m, e.detailRef)
    == Some(StoredPayload(e.detailRef, e.publisher, kind, id, e.seqNo, "application/json", detail, w.digest, w.stored,
                          e.expiresAt))
  }

  /** One message for each of the envelope's topics, in order. */
  ghost predicate SentOnTopics(before: seq<(string, Envelope)>, after: seq<(string, Envelope)>, e: Envelope) {
    && |after| == |before| + |e.topics| && before <= after
    && (forall i :: 0 <= i < |e.topics| ==> after[|before| + i] == (e.topics[i], e))
  }

  /** No completed or withdrawn record stands in the way of the envelope. */
  ghost predicate OpenFor(m: Tasks, e: Envelope) {
    var k := e.origin + "::" + e.taskID;
    k in m ==> m[k].status != COMPLETE && m[k].status != WITHDRAWN
  }

  /** Where a publication stopped. */
  datatype Stop = Refused | PayloadNotSaved | RecordNotSaved | NotSent

  /** What the world does during one publication: instants of the envelope, the payload and the apply;
      the signature; the outcome of the saves; on how many topics the message goes out. */
  datatype World = World(made: Time, stored: Time, applied: Time, freshID: string, sig: string, digest: string,
                         context: Context, savePayload: IO, saveRecord: IO, reached: nat)

  /** The signed envelope a publication is about: its number is the next one in the records it reads. */
  function TaskEnvelope(did: string, peer: string, limit: int, m: Tasks, i: TaskInput, w: World): Envelope {
    var id := if i.taskID == "" then w.freshID else i.taskID;
    var topics := Topics.NormalTopics(i.topics, i.taxonomy, limit);
    TaskDraft(did, peer, id, OpToPublish(i.op), i, topics, NextTaskSeq(m, did, id), w.made).(sig := w.sig)
  }

  function FactEnvelope(did: string, peer: string, limit: int, m: Facts, i: FactInput, w: World): Envelope {
    var id := if i.factID == "" then w.freshID else i.factID;
    var topics := Topics.NormalTopics(i.topics, i.taxonomy, limit);
    FactDraft(did, peer, id, i, topics, NextFactSeq(m, did, id), w.made).(sig := w.sig)
  }

  /** A publication gets past its checks: its details can be printed, and the signed envelope is valid and
      within the policy. */
  predicate Publishable(p: Policy, detail: Option<string>, e: Envelope, c: Context) {
    detail.Some? && ValidateSigned(e, c.size).None? && StaticRefusal(p, e, c).None?
  }

  /** Where it stops after that, given whether the node's own record takes the envelope. */
  function StopAt(e: Envelope, taken: bool, w: World): (r: Option<Stop>)
    ensures r != Some(Refused)
    ensures r == Some(PayloadNotSaved) <==> w.savePayload != Written
    ensures r == Some(RecordNotSaved) <==> w.savePayload == Written && taken && w.saveRecord != Written
    ensures r in {None, Some(NotSent)} <==> w.savePayload == Written && (taken ==> w.saveRecord == Written)
    ensures r.None? ==> w.reached >= |Topics.FirstOccurrences(Topics.NonEmpty(e.topics))|
    ensures r == Some(NotSent) ==> w.reached < |Topics.FirstOccurrences(Topics.NonEmpty(e.topics))|
  {
    if w.savePayload != Written then Some(PayloadNotSaved)
    else if taken && w.saveRecord != Written then Some(RecordNotSaved)
    else if w.reached < |Topics.FirstOccurrences(Topics.NonEmpty(e.topics))| then Some(NotSent)
    else None
  }

  /** When a task is published, in terms of what the caller and the node bring. */
  lemma TaskPublishableExact(did: string, peer: string, p: Policy, m: Tasks, i: TaskInput, w: World)
    requires p.topicLimit > 0
    ensures var e, c := TaskEnvelope(did, peer, p.topicLimit, m, i, w), w.context;
            Publishable(p, i.detail, e, c) <==>
              && i.taxonomy != "" && i.summary != "" && i.detail.Some? && i.conf >= p.confMin
              && did != "" && peer != "" && IDToPublish(i.taskID, w) != "" && e.seqNo != 0 && w.sig != ""
              && i.op in {OpUpsert, OpComplete, OpWithdraw, OtherOp("")}
              && c.size <= 1024 && c.size <= p.msgSizeLimit
              && (p.requireSignature ==> SignedByOrigin(e, c.size, c.read, c.book))
  {
    TaskEnvelopeAsked(did, peer, p.topicLimit, m, i, w);
    Topics.NormalFormFixed(i.topics, i.taxonomy, p.topicLimit, i.taxonomy);
    var e := TaskEnvelope(did, peer, p.topicLimit, m, i, w);
    PublishableFields(p, i.detail, e, w.context);
  }

  lemma FactPublishableExact(did: string, peer: string, p: Policy, m: Facts, i: FactInput, w: World)
    requires p.topicLimit > 0
    ensures var e, c := FactEnvelope(did, peer, p.topicLimit, m, i, w), w.context;
            Publishable(p, i.detail, e, c) <==>
              && i.taxonomy != "" && i.summary != "" && i.factKind != "" && i.detail.Some? && i.conf >= p.confMin
              && did != "" && peer != "" && IDToPublish(i.factID, w) != "" && e.seqNo != 0 && w.sig != ""
              && c.size <= 1024 && c.size <= p.msgSizeLimit
              && (p.requireSignature ==> SignedByOrigin(e, c.size, c.read, c.book))
  {
    FactEnvelopeAsked(did, peer, p.topicLimit, m, i, w);
    Topics.NormalFormFixed(i.topics, i.taxonomy, p.topicLimit, i.taxonomy);
    var e := FactEnvelope(did, peer, p.topicLimit, m, i, w);
    PublishableFields(p, i.detail, e, w.context);
  }

  lemma PublishableFields(p: Policy, detail: Option<string>, e: Envelope, c: Context)
    requires e.topics != [] && |e.topics| <= p.topicLimit && e.detailRef != [] && e.expiresAt != ZERO_TIME
    ensures Publishable(p, detail, e, c) <==>
              && detail.Some? && e.origin != "" && e.publisher != "" && e.seqNo != 0
              && e.summary != "" && e.taxonomy != ""
              && (|| (e.kind == KindTask && e.taskID != "" && e.op in {OpUpsert, OpComplete, OpWithdraw})
                  || (e.kind == KindAgentFact && e.factID != "" && e.factKind != ""))
              && e.sig != "" && e.conf >= p.confMin && c.size <= 1024 && c.size <= p.msgSizeLimit
              && (p.requireSignature ==> SignedByOrigin(e, c.size, c.read, c.book))
  {
    UnsignedExact(e);
  }

  predicate TaskTaken(m: Tasks, e: Envelope, w: World) {
    TaskVerdict(Lookup(m, TaskKey(e)), e, w.applied) == Applied
  }

  predicate FactTaken(m: Facts, e: Envelope, w: World) {
    FactVerdict(Lookup(m, FactKey(e)), e, w.applied) == Applied
  }

  lemma TaskEnvelopeAsked(did: string, peer: string, limit: int, m: Tasks, i: TaskInput, w: World)
    ensures var e := TaskEnvelope(did, peer, limit, m, i, w);
            && TaskAsAsked(e, did, peer, i, w)
            && e.topics == Topics.NormalTopics(i.topics, i.taxonomy, limit)
            && e.seqNo == NextTaskSeq(m, did, e.taskID)
  {}

  lemma FactEnvelopeAsked(did: string, peer: string, limit: int, m: Facts, i: FactInput, w: World)
    ensures var e := FactEnvelope(did, peer, limit, m, i, w);
            && FactAsAsked(e, did, peer, i, w)
            && e.topics == Topics.NormalTopics(i.topics, i.taxonomy, limit)
            && e.seqNo == NextFactSeq(m, did, e.factID)
  {}

  /** The own record of an open task takes an unexpired publication with the next number. */
  lemma OwnTaskTakes(m: Tasks, e: Envelope, now: Time)
    requires e.kind == KindTask && e.seqNo != 0 && e.seqNo == NextTaskSeq(m, e.origin, e.taskID)
    requires OpenFor(m, e) && now <= e.expiresAt
    ensures var k := e.origin + "::" + e.taskID; var m' := ApplyTask(m, e, now); k in m' && TaskSays(m'[k], e, now)
  {
    AppliedTask(m, e, now);
  }

  lemma OwnFactTakes(m: Facts, e: Envelope, now: Time)
    requires e.kind == KindAgentFact && e.seqNo != 0 && e.seqNo == NextFactSeq(m, e.origin, e.factID)
    requires now <= e.expiresAt
    ensures var k := e.origin + "::" + e.factID; var m' := ApplyFact(m, e, now); k in m' && FactSays(m'[k], e, now)
  {
    AppliedFact(m, e, now);
  }

  /** A complete publication sends on exactly the envelope's topics. */
  lemma AnnouncedOnTopics(before: seq<(string, Envelope)>, e: Envelope, reached: nat)
    requires Topics.FirstOccurrences(Topics.NonEmpty(e.topics)) == e.topics
    ensures SentOnTopics(before, before + Announced(e, None, reached), e)
  {}

  /** The messages of a publication that ends as `stop` says: one for each distinct topic, in order. */
  function Announced(e: Envelope, stop: Option<Stop>, reached: nat): seq<(string, Envelope)> {
    var topics := Topics.FirstOccurrences(Topics.NonEmpty(e.topics));
    if stop.None? then Messages(topics, e)
    else if stop.value == NotSent && reached < |topics| then Messages(topics[..reached], e)
    else []
  }

  lemma TaskPublished(did: string, peer: string, p: Policy, m: Tasks, i: TaskInput, w: World,
                      before: seq<(string, Envelope)>)
    requires ValidateUnsigned(TaskEnvelope(did, peer, p.topicLimit, m, i, w)).None?
    ensures var e := TaskEnvelope(did, peer, p.topicLimit, m, i, w);
            && TaskAsAsked(e, did, peer, i, w)
            && e.topics == Topics.NormalTopics(i.topics, i.taxonomy, p.topicLimit)
            && SentOnTopics(before, before + Announced(e, None, w.reached), e)
            && (OpenFor(m, e) && w.applied <= e.expiresAt ==>
                  var m' := ApplyTask(m, e, w.applied);
                  did + "::" + e.taskID in m' && TaskSays(m'[did + "::" + e.taskID], e, w.applied))
  {
    var e := TaskEnvelope(did, peer, p.topicLimit, m, i, w);
    TaskEnvelopeAsked(did, peer, p.topicLimit, m, i, w);
    Topics.NormalFormFixed(i.topics, i.taxonomy, p.topicLimit, i.taxonomy);
    AnnouncedOnTopics(before, e, w.reached);
    if OpenFor(m, e) && w.applied <= e.expiresAt {
      OwnTaskTakes(m, e, w.applied);
    }
  }

  lemma FactPublished(did: string, peer: string, p: Policy, m: Facts, i: FactInput, w: World,
                      before: seq<(string, Envelope)>)
    requires ValidateUnsigned(FactEnvelope(did, peer, p.topicLimit, m, i, w)).None?
    ensures var e := FactEnvelope(did, peer, p.topicLimit, m, i, w);
            && FactAsAsked(e, did, peer, i, w)
            && e.topics == Topics.NormalTopics(i.topics, i.taxonomy, p.topicLimit)
            && SentOnTopics(before, before + Announced(e, None, w.reached), e)
            && (w.applied <= e.expiresAt ==>
                  var m' := ApplyFact(m, e, w.applied);
                  did + "::" + e.factID in m' && FactSays(m'[did + "::" + e.factID], e, w.applied))
  {
    var e := FactEnvelope(did, peer, p.topicLimit, m, i, w);
    FactEnvelopeAsked(did, peer, p.topicLimit, m, i, w);
    Topics.NormalFormFixed(i.topics, i.taxonomy, p.topicLimit, i.taxonomy);
    AnnouncedOnTopics(before, e, w.reached);
    if w.applied <= e.expiresAt {
      OwnFactTakes(m, e, w.applied);
    }
  }

  /** The answer to a request for details. */
  datatype Fetched = Fetched(contentType: string, data: string, sha256: string)

  function FetchedFrom(m: Payloads, ref: seq<byte>): Option<Fetched> {
    match Lookup(m, ref) case None => None case Some(p) => Some(Fetched(p.contentType, p.data, p.sha256))
  }

  /** Whoever fetches the reference of a finished publication gets the detail given and its digest. */
  lemma PublishedIsFetched(m: Payloads, e: Envelope, kind: string, id: string, detail: string, w: World)
    requires DetailStored(m, e, kind, id, detail, w)
    ensures FetchedFrom(m, e.detailRef) == Some(Fetched("application/json", detail, w.digest))
  {}

  class Node {
    const did: string
    const peerID: string
    const policy: Policy
    const store: Store
    /** Messages handed to gossip, with their topics. */
    var sent: seq<(string, Envelope)>

    constructor (did: string, peerID: string, policy: Policy, store: Store)
      ensures this.did == did && this.peerID == peerID && this.policy == Normalized(policy)
      ensures this.store == store && sent == []
    {
      this.did, this.peerID, this.policy, this.store := did, peerID, Normalized(policy), store;
      sent := [];
    }

    method EnforceEnvelopePolicy(e: Envelope, c: Context, inbound: bool, now: Time) returns (r: Option<Refusal>)
      modifies store`rates
      ensures policy.rateLimit > 0 ==>
                (r == Some(RateExceeded) <==> StaticRefusal(policy, e, c).None? && inbound && e.publisher != peerID
                                              && OverLimit(old(store.rates), e.publisher, policy.rateLimit, now))
      ensures r == PolicyRefusal(policy, peerID, e, c, inbound, old(store.rates), now)
      ensures store.rates == if Metered(policy, peerID, e, c, inbound)
                             then RateLimit.CountCall(old(store.rates), e.publisher, policy.rateLimit, now)
                             else old(store.rates)
    {
      if policy.rateLimit > 0 {
        RateRefusedExact(policy, peerID, e, c, inbound, store.rates, now);
      }
      r := StaticRefusal(policy, e, c);
      if r.None? && inbound && e.publisher != peerID {
        var ok := store.AllowPeer(e.publisher, policy.rateLimit, now);
        if !ok {
          r := Some(RateExceeded);
        }
      }
    }

    /** `handleEnvelope`: an accepted envelope reaches the register of its kind, nothing else changes. */
    method HandleEnvelope(e: Envelope, c: Context, now: Time, applyAt: Time, io: IO)
      returns (refusal: Option<Refusal>, verdict: Verdict)
      modifies store`rates, store`tasks, store`facts, store`disk
      ensures refusal == PolicyRefusal(policy, peerID, e, c, true, old(store.rates), now)
      ensures Member(store.tasks, store.facts, store.rates)
              == Handle(policy, peerID, Member(old(store.tasks), old(store.facts), old(store.rates)), e, c, true, now,
                        applyAt)
      ensures refusal.Some? ==> store.tasks == old(store.tasks) && store.facts == old(store.facts)
      ensures refusal.None? ==>
                && store.tasks == Registers.ApplyTask(old(store.tasks), e, applyAt)
                && store.facts == Registers.ApplyFact(old(store.facts), e, applyAt)
      ensures verdict == if refusal.Some? then NotThisKind
                         else if e.kind.KindTask? then TaskVerdict(Lookup(old(store.tasks), TaskKey(e)), e, applyAt)
                         else FactVerdict(Lookup(old(store.facts), FactKey(e)), e, applyAt)
      ensures old(store.InSync()) && io == Written ==> store.InSync()
    {
      verdict := NotThisKind;
      refusal := EnforceEnvelopePolicy(e, c, true, now);
      if refusal.Some? {
        return;
      }
      match e.kind {
        case KindTask =>
          var answer, _ := store.ApplyTask(e, applyAt, io);
          verdict := answer.verdict;
        case KindAgentFact =>
          var answer, _ := store.ApplyFact(e, applyAt, io);
          verdict := answer.verdict;
        case _ =>
      }
    }

    /** `PublishSAE`: one message for each distinct topic, in order, until a publication fails. */
    method PublishSAE(e: Envelope, reached: nat) returns (failed: bool)
      modifies this`sent
      ensures var topics := Topics.FirstOccurrences(Topics.NonEmpty(e.topics));
              && (failed <==> reached < |topics|)
              && sent == old(sent) + Messages(if failed then topics[..reached] else topics, e)
    {
      var topics := Topics.UniqueStrings(e.topics);
      for i := 0 to |topics|
        invariant i <= reached
        invariant sent == old(sent) + Messages(topics[..i], e)
      {
        if i == reached {
          return true;
        }
        MessagesGrow(topics, i, e);
        sent := sent + [(topics[i], e)];
      }
      assert topics[..|topics|] == topics;
      failed := false;
    }

    /** The part of `PublishTask` that changes nothing: the envelope to publish, signed and admitted. */
    method PrepareTask(input: TaskInput, w: World) returns (r: Option<Envelope>)
      modifies store`rates
      ensures store.rates == old(store.rates)
      ensures var e := TaskEnvelope(did, peerID, policy.topicLimit, store.tasks, input, w);
              r == if Publishable(policy, input.detail, e, w.context) then Some(e) else None
    {
      if input.taxonomy == "" || input.summary == "" || input.detail.None? {
        return None;
      }
      var topics := Topics.NormalizeTopics(input.topics, input.taxonomy, policy.topicLimit);
      var id := if input.taskID == "" then w.freshID else input.taskID;
      var n := store.NextTaskSeq(did, id);
      var draft := TaskDraft(did, peerID, id, OpToPublish(input.op), input, topics, n, w.made);
      SignOutcome(draft, w.sig, w.context.size);
      var signed := Sign(draft, w.sig, w.context.size);
      if signed.Err? {
        return None;
      }
      var refusal := EnforceEnvelopePolicy(signed.value, w.context, false, w.made);
      r := if refusal.Some? then None else Some(signed.value);
    }

    /** Its steps, in order: payload, record, messages. */
    method CommitTask(e: Envelope, p: StoredPayload, w: World) returns (stop: Option<Stop>)
      requires e.kind.KindTask?
      modifies store`payloads, store`tasks, store`disk, this`sent
      ensures stop == StopAt(e, TaskTaken(old(store.tasks), e, w), w)
      ensures store.payloads == old(store.payloads)[p.ref := p]
      ensures store.tasks == if stop == Some(PayloadNotSaved) then old(store.tasks)
                            else Registers.ApplyTask(old(store.tasks), e, w.applied)
      ensures sent == old(sent) + Announced(e, stop, w.reached)
      ensures old(store.InSync()) && w.savePayload == Written && w.saveRecord == Written ==> store.InSync()
    {
      var failed := store.UpsertPayload(p, w.savePayload);
      if failed {
        return Some(PayloadNotSaved);
      }
      var _, unsaved := store.ApplyTask(e, w.applied, w.saveRecord);
      if unsaved {
        return Some(RecordNotSaved);
      }
      failed := PublishSAE(e, w.reached);
      stop := if failed then Some(NotSent) else None;
    }

    /** `PublishTask`: each step only if those before it went through; the messages go out even when the
        local record refused the envelope. */
    method PublishTask(input: TaskInput, w: World) returns (r: Result<Envelope, Stop>)
      modifies store`payloads, store`tasks, store`disk, store`rates, this`sent
      ensures store.rates == old(store.rates)
      ensures var e := TaskEnvelope(did, peerID, policy.topicLimit, old(store.tasks), input, w);
              if !Publishable(policy, input.detail, e, w.context)
              then
                && r == Err(Refused) && store.payloads == old(store.payloads) && store.tasks == old(store.tasks)
                && sent == old(sent)
              else
                var p := PayloadFor(e, "task", e.taskID, input.detail.value, w.digest, w.stored);
                var stop := StopAt(e, TaskTaken(old(store.tasks), e, w), w);
                && r == (if stop.Some? then Err(stop.value) else Ok(e))
                && store.payloads == old(store.payloads)[e.detailRef := p]
                && store.tasks == (if stop == Some(PayloadNotSaved) then old(store.tasks)
                                  else Registers.ApplyTask(old(store.tasks), e, w.applied))
                && sent == old(sent) + Announced(e, stop, w.reached)
      ensures r.Ok? ==>
                && TaskAsAsked(r.value, did, peerID, input, w) && input.detail.Some?
                && r.value.topics == Topics.NormalTopics(input.topics, input.taxonomy, policy.topicLimit)
                && DetailStored(store.payloads, r.value, "task", r.value.taskID, input.detail.value, w)
                && SentOnTopics(old(sent), sent, r.value)
                && (OpenFor(old(store.tasks), r.value) && w.applied <= r.value.expiresAt ==>
                      && did + "::" + r.value.taskID in store.tasks
                      && TaskSays(store.tasks[did + "::" + r.value.taskID], r.value, w.applied))
      ensures old(store.InSync()) && w.savePayload == Written && w.saveRecord == Written ==> store.InSync()
    {
      var prepared := PrepareTask(input, w);
      if prepared.None? {
        return Err(Refused);
      }
      var e := prepared.value;
      var stop := CommitTask(e, PayloadFor(e, "task", e.taskID, input.detail.value, w.digest, w.stored), w);
      r := if stop.Some? then Err(stop.value) else Ok(e);
      if stop.None? {
        TaskPublished(did, peerID, policy, old(store.tasks), input, w, old(sent));
      }
    }

    method PrepareFact(input: FactInput, w: World) returns (r: Option<Envelope>)
      modifies store`rates
      ensures store.rates == old(store.rates)
      ensures var e := FactEnvelope(did, peerID, policy.topicLimit, store.facts, input, w);
              r == if Publishable(policy, input.detail, e, w.context) then Some(e) else None
    {
      if input.taxonomy == "" || input.summary == "" || input.factKind == "" || input.detail.None? {
        return None;
      }
      var topics := Topics.NormalizeTopics(input.topics, input.taxonomy, policy.topicLimit);
      var id := if input.factID == "" then w.freshID else input.factID;
      var n := store.NextFactSeq(did, id);
      var draft := FactDraft(did, peerID, id, input, topics, n, w.made);
      SignOutcome(draft, w.sig, w.context.size);
      var signed := Sign(draft, w.sig, w.context.size);
      if signed.Err? {
        return None;
      }
      var refusal := EnforceEnvelopePolicy(signed.value, w.context, false, w.made);
      r := if refusal.Some? then None else Some(signed.value);
    }

    method CommitFact(e: Envelope, p: StoredPayload, w: World) returns (stop: Option<Stop>)
      requires e.kind.KindAgentFact?
      modifies store`payloads, store`facts, store`disk, this`sent
      ensures stop == StopAt(e, FactTaken(old(store.facts), e, w), w)
      ensures store.payloads == old(store.payloads)[p.ref := p]
      ensures store.facts == if stop == Some(PayloadNotSaved) then old(store.facts)
                            else Registers.ApplyFact(old(store.facts), e, w.applied)
      ensures sent == old(sent) + Announced(e, stop, w.reached)
      ensures old(store.InSync()) && w.savePayload == Written && w.saveRecord == Written ==> store.InSync()
    {
      var failed := store.UpsertPayload(p, w.savePayload);
      if failed {
        return Some(PayloadNotSaved);
      }
      var _, unsaved := store.ApplyFact(e, w.applied, w.saveRecord);
      if unsaved {
        return Some(RecordNotSaved);
      }
      failed := PublishSAE(e, w.reached);
      stop := if failed then Some(NotSent) else None;
    }

    /** `PublishFact`, with the same steps. */
    method PublishFact(input: FactInput, w: World) returns (r: Result<Envelope, Stop>)
      modifies store`payloads, store`facts, store`disk, store`rates, this`sent
      ensures store.rates == old(store.rates)
      ensures var e := FactEnvelope(did, peerID, policy.topicLimit, old(store.facts), input, w);
              if !Publishable(policy, input.detail, e, w.context)
              then
                && r == Err(Refused) && store.payloads == old(store.payloads) && store.facts == old(store.facts)
                && sent == old(sent)
              else
                var p := PayloadFor(e, "fact", e.factID, input.detail.value, w.digest, w.stored);
                var stop := StopAt(e, FactTaken(old(store.facts), e, w), w);
                && r == (if stop.Some? then Err(stop.value) else Ok(e))
                && store.payloads == old(store.payloads)[e.detailRef := p]
                && store.facts == (if stop == Some(PayloadNotSaved) then old(store.facts)
                                  else Registers.ApplyFact(old(store.facts), e, w.applied))
                && sent == old(sent) + Announced(e, stop, w.reached)
      ensures r.Ok? ==>
                && FactAsAsked(r.value, did, peerID, input, w) && input.detail.Some?
                && r.value.topics == Topics.NormalTopics(input.topics, input.taxonomy, policy.topicLimit)
                && DetailStored(store.payloads, r.value, "fact", r.value.factID, input.detail.value, w)
                && SentOnTopics(old(sent), sent, r.value)
                && (w.applied <= r.value.expiresAt ==>
                      && did + "::" + r.value.factID in store.facts
                      && FactSays(store.facts[did + "::" + r.value.factID], r.value, w.applied))
      ensures old(store.InSync()) && w.savePayload == Written && w.saveRecord == Written ==> store.InSync()
    {
      var prepared := PrepareFact(input, w);
      if prepared.None? {
        return Err(Refused);
      }
      var e := prepared.value;
      var stop := CommitFact(e, PayloadFor(e, "fact", e.factID, input.detail.value, w.digest, w.stored), w);
      r := if stop.Some? then Err(stop.value) else Ok(e);
      if stop.None? {
        FactPublished(did, peerID, policy, old(store.facts), input, w, old(sent));
      }
    }

    /** `handleFetch`: what is stored under the reference, if anything. */
    method HandleFetch(ref: seq<byte>) returns (r: Option<Fetched>)
      ensures r == FetchedFrom(store.payloads, ref)
      ensures r.None? <==> ref !in store.payloads
    {
      var p := store.Payload(ref);
      r := match p case None => None case Some(p) => Some(Fetched(p.contentType, p.data, p.sha256));
    }

    /** `handleNegotiate`: refuses an invalid frame, otherwise logs it and its answer. When the first save
        fails, the frame stays in memory and there is no answer; a failure of the second is ignored. */
    method HandleNegotiate(f: Negotiations.Frame, now: Time, saveFrame: IO, saveReply: IO)
      returns (r: Option<Negotiations.Frame>)
      modifies store`negotiations, store`disk
      ensures var g := Negotiations.Stamped(f, now);
              var logged := Negotiations.RecordFrame(old(store.negotiations), g, now);
              var reply := Negotiations.Reply(peerID, g, now);
              && r == (if Negotiations.ValidFrame(f) && saveFrame == Written then Some(reply) else None)
              && (r.Some? ==> Negotiations.Answers(f, r.value, peerID, now))
              && (r.None? <==> f.sessionID == "" || f.refID == "" || f.op.Unknown? || saveFrame != Written)
              && store.negotiations == if !Negotiations.ValidFrame(f) then old(store.negotiations)
                                       else if saveFrame != Written then logged
                                       else Negotiations.RecordFrame(logged, reply, now)
      ensures old(store.InSync()) && saveFrame == Written && saveReply == Written ==> store.InSync()
    {
      var g := Negotiations.Stamped(f, now);
      Negotiations.ReplyAnswers(peerID, g, now);
      if !Negotiations.ValidFrame(g) {
        return None;
      }
      var failed := store.RecordNegotiation(g, now, saveFrame);
      if failed {
        return None;
      }
      var status := "received";
      match g.op {
        case Accept => status := "accepted";
        case Reject => status := "rejected";
        case Cancel => status := "cancelled";
        case Finish => status := "completed";
        case _ =>
      }
      var reply := Negotiations.Frame(g.sessionID, g.refID, g.op, peerID, g.fromPeer, status, "", "", now);
      var _ := store.RecordNegotiation(reply, now, saveReply);
      r := Some(reply);
    }

    /** `SendNegotiation` to a node, answered by its stream handler: together the two sides make one exchange.
        The attempt fails early when its own save does, and tells an error when the other node's save does. */
    method SendNegotiation(other: Node, t: Negotiations.Attempt, saveOwn: IO, saveTheirs: IO, saveReply: IO,
                           saveAnswer: IO)
      returns (r: Option<Negotiations.Frame>)
      requires store != other.store
      requires saveOwn != Written ==> t.fate.BadTarget? || t.fate.Unreachable?
      requires saveTheirs != Written <==> t.fate.Unrecorded?
      modifies store`negotiations, store`disk, other.store`negotiations, other.store`disk
      ensures (store.negotiations, other.store.negotiations)
              == Negotiations.Exchange(old(store.negotiations), old(other.store.negotiations), peerID, other.peerID, t)
      ensures var f := Negotiations.Outgoing(peerID, t.target, t.frame, t.sent);
              var g := Negotiations.Stamped(f, t.answered);
              r == if Negotiations.Succeeds(t) then Some(Negotiations.Reply(other.peerID, g, t.answered))
                   else if Negotiations.LogsError(t) then Some(Negotiations.ErrorReply(g, t.fate.error, t.answered))
                   else None
      ensures var saved := saveOwn == saveTheirs == saveReply == saveAnswer == Written;
              && (old(store.InSync()) && saved ==> store.InSync())
              && (old(other.store.InSync()) && saved ==> other.store.InSync())
    {
      if t.fate.BadTarget? {
        return None;
      }
      var f := Negotiations.Outgoing(peerID, t.target, t.frame, t.sent);
      var failed := store.RecordNegotiation(f, t.sent, saveOwn);
      if failed || t.fate.Unreachable? || !Negotiations.ValidFrame(f) {
        return None;
      }
      r := other.HandleNegotiate(f, t.answered, saveTheirs, saveReply);
      if t.fate.Unrecorded? {
        r := Some(Negotiations.ErrorReply(Negotiations.Stamped(f, t.answered), t.fate.error, t.answered));
      }
      if t.fate.ReplyLost? || (t.fate.Unrecorded? && !t.fate.told) {
        return None;
      }
      var _ := store.RecordNegotiation(r.value, t.answered, saveAnswer);
    }
  }

  function Messages(topics: seq<string>, e: Envelope): seq<(string, Envelope)> {
    seq(|topics|, i requires 0 <= i < |topics| => (topics[i], e))
  }

  lemma MessagesGrow(topics: seq<string>, i: nat, e: Envelope)
    requires i < |topics|
    ensures Messages(topics[..i + 1], e) == Messages(topics[..i], e) + [(topics[i], e)]
  {}
}
