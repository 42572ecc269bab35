/** Where records come from when signatures are required and the network may alter, invent and replay
    envelopes: signatures are ideal, so only what a key signed verifies under it. */
module Provenance {
  import opened Basics
  import opened Envelopes
  import opened Registers
  import opened Nodes

  /** The nodes by peer ID, and every signature ever made. */
  datatype Net = Net(nodes: map<string, Member>, book: set<Signed>)

  /** All nodes read keys and signatures alike, and run with `policy`. */
  datatype Rules = Rules(read: Readers, policy: Policy)

  datatype Step =
    | SignEnvelope(key: PubKey, env: Envelope, sig: seq<byte>)
    | Offer(node: string, env: Envelope, inbound: bool, size: nat, now: Time, applyAt: Time)
    | Collection(node: string, at: Time)

  /** Any envelope whatever may be offered to a node, from the network or by its own publication; any
      key may sign any valid envelope. */
  function Next(r: Rules, s: Net, p: Step): Net {
    match p
    case SignEnvelope(key, e, sig) =>
      if ValidateUnsigned(e).None? then s.(book := s.book + {Signed(key, CanonicalOf(e), sig)}) else s
    case Offer(n, e, inbound, size, now, applyAt) =>
      if n !in s.nodes then s
      else
        var m := Handle(r.policy, n, s.nodes[n], e, Context(size, r.read, s.book), inbound, now, applyAt);
        s.(nodes := s.nodes[n := m])
    case Collection(n, at) =>
      if n !in s.nodes then s
      else
        var m := s.nodes[n];
        s.(nodes := s.nodes[n := m.(tasks := CollectTasks(m.tasks, at), facts := CollectFacts(m.facts, at))])
  }

  function Run(r: Rules, s: Net, steps: seq<Step>): Net {
    if steps == [] then s else Next(r, Run(r, s, steps[..|steps| - 1]), steps[|steps| - 1])
  }

  // ---------------------------------------------------------------- provenance

  /** Some key whose DID is the envelope's origin signed its canonical form. */
  ghost predicate Vouched(e: Envelope, book: set<Signed>) {
    exists v :: v in book && v.form == CanonicalOf(e) && DIDFromPubKey(v.key) == e.origin
  }

  ghost predicate MemberVouched(m: Member, book: set<Signed>) {
    && (forall k :: k in m.tasks ==> TaskMatches(m.tasks[k], k) && Vouched(m.tasks[k].envelope, book))
    && (forall k :: k in m.facts ==> FactMatches(m.facts[k], k) && Vouched(m.facts[k].envelope, book))
  }

  ghost predicate Invariant(s: Net) {
    forall n :: n in s.nodes ==> MemberVouched(s.nodes[n], s.book)
  }

  lemma AdmittedIsVouched(r: Rules, e: Envelope, c: Context)
    requires r.policy.requireSignature && StaticRefusal(r.policy, e, c).None? && c.read == r.read
    ensures Vouched(e, c.book)
  {}

  lemma HandleKeepsVouched(r: Rules, self: string, m: Member, e: Envelope, c: Context, inbound: bool, now: Time,
                           applyAt: Time)
    requires r.policy.requireSignature && c.read == r.read && MemberVouched(m, c.book)
    ensures MemberVouched(Handle(r.policy, self, m, e, c, inbound, now, applyAt), c.book)
  {
    if PolicyRefusal(r.policy, self, e, c, inbound, m.rates, now).None? {
      AdmittedIsVouched(r, e, c);
      ApplyKeepsVouched(m, e, c.book, applyAt);
    }
  }

  lemma ApplyKeepsVouched(m: Member, e: Envelope, book: set<Signed>, now: Time)
    requires MemberVouched(m, book) && Vouched(e, book)
    ensures MemberVouched(m.(tasks := ApplyTask(m.tasks, e, now), facts := ApplyFact(m.facts, e, now)), book)
  {}

  lemma MoreSignatures(m: Member, book: set<Signed>, v: Signed)
    requires MemberVouched(m, book)
    ensures MemberVouched(m, book + {v})
  {}

  lemma StepVouched(r: Rules, s: Net, p: Step, n: string)
    requires r.policy.requireSignature && n in s.nodes && MemberVouched(s.nodes[n], s.book)
    ensures n in Next(r, s, p).nodes && MemberVouched(Next(r, s, p).nodes[n], Next(r, s, p).book)
  {
    match p {
      case SignEnvelope(key, e, sig) =>
        MoreSignatures(s.nodes[n], s.book, Signed(key, CanonicalOf(e), sig));
      case Offer(d, e, inbound, size, now, applyAt) =>
        if n == d {
          HandleKeepsVouched(r, d, s.nodes[d], e, Context(size, r.read, s.book), inbound, now, applyAt);
        }
      case Collection(_, _) =>
    }
  }

  lemma {:induction false} RunVouched(r: Rules, s: Net, steps: seq<Step>)
    requires r.policy.requireSignature && Invariant(s)
    ensures Invariant(Run(r, s, steps))
  {
    if steps != [] {
      var t, p := Run(r, s, steps[..|steps| - 1]), steps[|steps| - 1];
      RunVouched(r, s, steps[..|steps| - 1]);
      forall n | n in Next(r, t, p).nodes ensures MemberVouched(Next(r, t, p).nodes[n], Next(r, t, p).book) {
        assert n in t.nodes;
        StepVouched(r, t, p, n);
      }
    }
  }

  /** In every run each task record's number, id, operation and expiry, and each fact record's number,
      id, kind and expiry, stand in a form signed by a key whose DID is the record's origin. */
  lemma RecordsSignedByOrigin(r: Rules, members: set<string>, steps: seq<Step>, n: string, k: string)
    requires r.policy.requireSignature && n in members
    ensures var s := Run(r, Net(map d | d in members :: Member(map[], map[], map[]), {}), steps);
            && n in s.nodes
            && (k in s.nodes[n].tasks ==>
                  var t := s.nodes[n].tasks[k];
                  exists v :: v in s.book && DIDFromPubKey(v.key) == t.origin && v.form.kind == KindTask
                    && v.form.seqNo == t.lastSeq && v.form.taskID == t.taskID && v.form.expiresAt == t.expiresAt
                    && t.status in {StatusOf(v.form.op), EXPIRED})
            && (k in s.nodes[n].facts ==>
                  var f := s.nodes[n].facts[k];
                  exists v :: v in s.book && DIDFromPubKey(v.key) == f.origin && v.form.kind == KindAgentFact
                    && v.form.seqNo == f.lastSeq && v.form.factID == f.factID
                    && v.form.factKind == f.factKind && v.form.expiresAt == f.expiresAt)
  {
    var init := Net(map d | d in members :: Member(map[], map[], map[]), {});
    assert Invariant(init);
    RunVouched(r, init, steps);
    RunKeepsNodes(r, init, steps);
    var s := Run(r, init, steps);
    assert MemberVouched(s.nodes[n], s.book);
  }

  lemma {:induction false} RunKeepsNodes(r: Rules, s: Net, steps: seq<Step>)
    ensures Run(r, s, steps).nodes.Keys == s.nodes.Keys
  {
    if steps != [] {
      RunKeepsNodes(r, s, steps[..|steps| - 1]);
    }
  }

  ghost predicate KeysWellFormed(read: Readers) {
    forall p :: read.keyOf(p).Some? ==> WellFormedKey(read.keyOf(p).value)
  }

  /** An envelope changes a record of a key's origin only if its publisher's key has that origin and
      signed it; where both are raw keys, they are the same key. */
  lemma OnlyOwnerChangesRecord(r: Rules, self: string, m: Member, e: Envelope, c: Context, inbound: bool, now: Time,
                               applyAt: Time, owner: PubKey, id: string)
    requires r.policy.requireSignature && c.read == r.read && KeysWellFormed(r.read) && WellFormedKey(owner)
    ensures var m' := Handle(r.policy, self, m, e, c, inbound, now, applyAt);
            var k, key := RecordKey(DIDFromPubKey(owner), id), c.read.keyOf(e.publisher);
            Lookup(m'.tasks, k) != Lookup(m.tasks, k) || Lookup(m'.facts, k) != Lookup(m.facts, k) ==>
              && key.Some? && DIDFromPubKey(key.value) == DIDFromPubKey(owner) == e.origin
              && (exists v :: v in c.book && v.key == key.value && v.form == CanonicalOf(e))
              && (owner.RawKey? && key.value.RawKey? ==> key.value == owner)
  {
    if PolicyRefusal(r.policy, self, e, c, inbound, m.rates, now).None? {
      var key := c.read.keyOf(e.publisher).value;
      assert Signed(key, CanonicalOf(e), c.read.sigOf(e.sig).value) in c.book;
      if e.origin != DIDFromPubKey(owner) {
        DIDSeparable(key);
        DIDSeparable(owner);
        OriginIsolation(m.tasks, m.facts, e, applyAt, DIDFromPubKey(owner), id);
      } else if owner.RawKey? && key.RawKey? {
        DIDInjective(key.raw, owner.raw);
      }
    }
  }

  /** Deciding about an envelope looks at signed fields only: envelopes with one canonical form get the
      same verdict and leave the same record, the stored envelope itself aside. */
  lemma DecisionIsSigned(tasks: Tasks, facts: Facts, e: Envelope, e': Envelope, now: Time)
    requires CanonicalOf(e) == CanonicalOf(e')
    ensures TaskKey(e) == TaskKey(e') && FactKey(e) == FactKey(e')
    ensures TaskAnswer(tasks, e, now).verdict == TaskAnswer(tasks, e', now).verdict
    ensures FactAnswer(facts, e, now).verdict == FactAnswer(facts, e', now).verdict
    ensures TaskRecord(e, now) == TaskRecord(e', now).(envelope := e)
    ensures FactRecord(e, now) == FactRecord(e', now).(envelope := e)
  {}
}
