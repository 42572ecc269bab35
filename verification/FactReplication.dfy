/** Facts across a network that reorders, repeats and drops messages. An owner that collects an expired fact
    starts a new series of numbers at 1; envelopes of old series stay in the network. Clocks are arbitrary, but
    an envelope of an old series reaches no clock that is behind the instant at which its owner ended that
    series; and within a series the expiries do not go back. */
module FactReplication {
  import opened Basics
  import opened Envelopes
  import opened Registers
  import opened Nodes

  /** The fact records of each node by origin name, the current series of each fact in the order of
      publication, the envelopes of all series that are over, and the latest instant at which the owner of a
      fact ended a series of it. */
  datatype Net = Net(nodes: map<string, Facts>, series: map<string, seq<Envelope>>, past: set<Envelope>,
                     ended: map<string, Time>)

  datatype Step =
    | Publish(node: string, env: Envelope, at: Time)
    | Receive(node: string, env: Envelope, at: Time)
    | Collection(node: string, at: Time)

  function Series(s: Net, k: string): seq<Envelope> {
    if k in s.series then s.series[k] else []
  }

  function Ended(s: Net, k: string): Time {
    if k in s.ended then s.ended[k] else 0
  }

  function Cell(s: Net, d: string, k: string): Option<FactState> {
    if d in s.nodes then Lookup(s.nodes[d], k) else None
  }

  /** The node may be publishing this: its own fact with the next number and an expiry that is to come and
      not before that of the series. The rest of the envelope is free. */
  predicate MayPublish(s: Net, d: string, e: Envelope, at: Time) {
    var h := Series(s, FactKey(e));
    && d in s.nodes && e.kind.KindAgentFact? && e.origin == d && at <= e.expiresAt
    && e.seqNo != 0 && e.seqNo == NextFactSeq(s.nodes[d], d, e.factID)
    && (h != [] ==> h[|h| - 1].expiresAt <= e.expiresAt)
  }

  /** Every fact that `PublishFact` gets through its checks is of this kind, unless it shortens the expiry. */
  lemma PublishedFact(s: Net, d: string, peer: string, limit: int, i: FactInput, w: World)
    requires d in s.nodes
    ensures var e := FactEnvelope(d, peer, limit, s.nodes[d], i, w); var h := Series(s, FactKey(e));
            ValidateUnsigned(e).None? && w.applied <= e.expiresAt
            && (h != [] ==> h[|h| - 1].expiresAt <= e.expiresAt) ==>
              MayPublish(s, d, e, w.applied)
  {}

  /** The owner's collection ends the series. */
  predicate Ends(s: Net, d: string, k: string, at: Time) {
    var c := Cell(s, d, k);
    c.Some? && c.value.origin == d && at > c.value.expiresAt
  }

  function Announce(s: Net, d: string, e: Envelope, at: Time): Net
    requires d in s.nodes
  {
    s.(nodes := s.nodes[d := ApplyFact(s.nodes[d], e, at)],
       series := s.series[FactKey(e) := Series(s, FactKey(e)) + [e]])
  }

  function Hear(s: Net, d: string, e: Envelope, at: Time): Net
    requires d in s.nodes
  {
    s.(nodes := s.nodes[d := ApplyFact(s.nodes[d], e, at)])
  }

  function Later(x: Time, y: Time): Time {
    if x <= y then y else x
  }

  function Sweep(s: Net, d: string, at: Time): Net
    requires d in s.nodes
  {
    s.(nodes := s.nodes[d := CollectFacts(s.nodes[d], at)],
       series := map k | k in s.series && !Ends(s, d, k, at) :: s.series[k],
       past := s.past + set k, e | k in s.series && Ends(s, d, k, at) && e in s.series[k] :: e,
       ended := map k | k in s.series.Keys + s.ended.Keys ::
                  if Ends(s, d, k, at) then Later(Ended(s, k), at) else Ended(s, k))
  }

  /** The envelope is in the network, and an old one meets no clock behind the end of its series. */
  predicate Arrives(s: Net, e: Envelope, at: Time) {
    e in Series(s, FactKey(e)) || (e in s.past && at >= Ended(s, FactKey(e)))
  }

  /** A step that is not possible leaves the network as it is. */
  function Next(s: Net, p: Step): Net {
    match p
    case Publish(d, e, at) => if MayPublish(s, d, e, at) then Announce(s, d, e, at) else s
    case Receive(d, e, at) => if d in s.nodes && Arrives(s, e, at) then Hear(s, d, e, at) else s
    case Collection(d, at) => if d in s.nodes then Sweep(s, d, at) else s
  }

  function Run(s: Net, steps: seq<Step>): Net {
    if steps == [] then s else Next(Run(s, steps[..|steps| - 1]), steps[|steps| - 1])
  }

  /** Nodes named by separable origins, with empty stores. */
  ghost predicate Initial(s: Net) {
    && s.series == map[] && s.past == {} && s.ended == map[]
    && (forall d :: d in s.nodes ==> Separable(d) && s.nodes[d] == map[])
  }

  // ---------------------------------------------------------------- invariant

  /** The series of one fact: numbers 1, 2, 3, …, one origin and id, expiries that do not go back. */
  ghost predicate GoodSeries(k: string, h: seq<Envelope>) {
    && (forall i :: 0 <= i < |h| ==>
          && h[i].kind.KindAgentFact? && FactKey(h[i]) == k && h[i].seqNo == i + 1
          && h[i].origin == h[0].origin && h[i].factID == h[0].factID)
    && (forall i, j :: 0 <= i < j < |h| ==> h[i].expiresAt <= h[j].expiresAt)
  }

  /** The record is the series' publication with its number. */
  ghost predicate Current(f: FactState, h: seq<Envelope>) {
    1 <= f.lastSeq <= |h| && f.envelope == h[f.lastSeq - 1]
  }

  /** A record is of the series, or expired before `end`, and the owner's own one is the last of the series. */
  ghost predicate GoodRecord(f: FactState, k: string, h: seq<Envelope>, d: string, end: Time) {
    && FactMatches(f, k) && Separable(f.origin)
    && (Current(f, h) || end > f.expiresAt)
    && (f.origin == d ==> h != [] && f.lastSeq == |h| && f.envelope == h[|h| - 1])
  }

  ghost predicate GoodCell(c: Option<FactState>, k: string, h: seq<Envelope>, d: string, end: Time) {
    c.Some? ==> GoodRecord(c.value, k, h, d, end)
  }

  ghost predicate GoodFact(s: Net, k: string) {
    var h := Series(s, k);
    && GoodSeries(k, h)
    && (h != [] ==> Separable(h[0].origin) && Cell(s, h[0].origin, k).Some?)
    && (forall d :: d in s.nodes ==> GoodCell(Cell(s, d, k), k, h, d, Ended(s, k)))
    && (forall e :: e in s.past && FactKey(e) == k ==> Ended(s, k) > e.expiresAt)
  }

  ghost predicate Members(s: Net) {
    forall d :: d in s.nodes ==> Separable(d)
  }

  ghost predicate Invariant(s: Net) {
    Members(s) && forall k :: GoodFact(s, k)
  }

  function ApplyCell(c: Option<FactState>, e: Envelope, now: Time): Option<FactState> {
    if FactVerdict(c, e, now) == Applied then Some(FactRecord(e, now)) else c
  }

  lemma ApplySeen(m: Facts, e: Envelope, now: Time, k: string)
    ensures Lookup(ApplyFact(m, e, now), k) == if FactKey(e) == k then ApplyCell(Lookup(m, k), e, now) else Lookup(m, k)
  {}

  /** A record of the key that a publisher holds is its own. */
  lemma OwnRecord(f: FactState, k: string, d: string, id: string)
    requires FactMatches(f, k) && Separable(f.origin) && Separable(d) && k == RecordKey(d, id)
    ensures f.origin == d && f.factID == id
  {
    RecordKeyInjective(f.origin, f.factID, d, id);
  }

  lemma SameOwner(k: string, h: seq<Envelope>, d: string, id: string)
    requires GoodSeries(k, h) && h != [] && Separable(h[0].origin) && Separable(d) && k == RecordKey(d, id)
    ensures h[0].origin == d && h[0].factID == id
  {
    RecordKeyInjective(h[0].origin, h[0].factID, d, id);
  }

  /** The publisher's own record gives the next number of the series, and the publication is always
      applied. */
  lemma PublicationApplied(s: Net, d: string, e: Envelope, at: Time)
    requires Members(s) && GoodFact(s, FactKey(e)) && MayPublish(s, d, e, at)
    ensures var k := FactKey(e); var h := Series(s, k);
            && e.seqNo == |h| + 1 && (h != [] ==> h[0].origin == d && h[0].factID == e.factID)
            && ApplyCell(Cell(s, d, k), e, at) == Some(FactRecord(e, at))
  {
    var k := FactKey(e);
    var h := Series(s, k);
    assert GoodCell(Cell(s, d, k), k, h, d, Ended(s, k));
    if h != [] {
      SameOwner(k, h, d, e.factID);
    }
    if k in s.nodes[d] {
      OwnRecord(s.nodes[d][k], k, d, e.factID);
    }
  }

  lemma SeriesGrows(k: string, h: seq<Envelope>, e: Envelope)
    requires GoodSeries(k, h) && e.kind.KindAgentFact? && FactKey(e) == k && e.seqNo == |h| + 1
    requires h != [] ==> e.origin == h[0].origin && e.factID == h[0].factID && h[|h| - 1].expiresAt <= e.expiresAt
    ensures GoodSeries(k, h + [e])
  {}

  lemma OthersLonger(c: Option<FactState>, k: string, h: seq<Envelope>, e: Envelope, d: string, end: Time)
    requires GoodCell(c, k, h, d, end) && (c.Some? ==> c.value.origin != d)
    ensures GoodCell(c, k, h + [e], d, end)
  {}

  lemma PublishKeeps(s: Net, d: string, e: Envelope, at: Time)
    requires Members(s) && GoodFact(s, FactKey(e)) && MayPublish(s, d, e, at)
    ensures GoodFact(Announce(s, d, e, at), FactKey(e))
  {
    var k := FactKey(e);
    var h, s' := Series(s, k), Announce(s, d, e, at);
    PublicationApplied(s, d, e, at);
    SeriesGrows(k, h, e);
    ApplySeen(s.nodes[d], e, at, k);
    forall c | c in s'.nodes ensures GoodCell(Cell(s', c, k), k, h + [e], c, Ended(s', k)) {
      if c != d && Cell(s, c, k).Some? {
        NotItsOwn(s, d, c, e);
        OthersLonger(Cell(s, c, k), k, h, e, c, Ended(s, k));
      }
    }
  }

  /** Only the publisher's record of the fact is its holder's own. */
  lemma NotItsOwn(s: Net, d: string, c: string, e: Envelope)
    requires Members(s) && GoodFact(s, FactKey(e)) && d in s.nodes && c in s.nodes && c != d && e.origin == d
    requires FactKey(e) in s.nodes[c]
    ensures s.nodes[c][FactKey(e)].origin != c
  {
    var k := FactKey(e);
    assert GoodCell(Cell(s, c, k), k, Series(s, k), c, Ended(s, k));
    OwnRecord(s.nodes[c][k], k, d, e.factID);
  }

  /** A step that leaves the fact's records, series and past alone keeps it good. */
  lemma SameCells(s: Net, s': Net, k: string)
    requires GoodFact(s, k) && s'.nodes.Keys == s.nodes.Keys
    requires Series(s', k) == Series(s, k) && Ended(s', k) == Ended(s, k)
    requires forall d :: d in s.nodes ==> Cell(s', d, k) == Cell(s, d, k)
    requires forall e :: e in s'.past && FactKey(e) == k ==> Ended(s, k) > e.expiresAt
    ensures GoodFact(s', k)
  {
    forall d | d in s'.nodes ensures GoodCell(Cell(s', d, k), k, Series(s', k), d, Ended(s', k)) {
      assert GoodCell(Cell(s, d, k), k, Series(s, k), d, Ended(s, k));
    }
  }

  /** An envelope of the past changes nothing; one of the series can only bring the record forward. */
  lemma HearKeeps(s: Net, d: string, e: Envelope, at: Time)
    requires GoodFact(s, FactKey(e)) && d in s.nodes && Arrives(s, e, at)
    ensures GoodFact(Hear(s, d, e, at), FactKey(e))
  {
    var k := FactKey(e);
    var h, s' := Series(s, k), Hear(s, d, e, at);
    ApplySeen(s.nodes[d], e, at, k);
    assert GoodCell(Cell(s, d, k), k, h, d, Ended(s, k));
    if e in h {
      var i :| 0 <= i < |h| && h[i] == e;
      assert GoodCell(Cell(s', d, k), k, h, d, Ended(s', k)) by {
        if e.origin == d {
          assert Cell(s, d, k).Some? && FactMatches(Cell(s, d, k).value, k);
          RecordKeyInjective(Cell(s, d, k).value.origin, Cell(s, d, k).value.factID, d, e.factID);
        }
      }
    } else {
      SameCells(s, s', k);
    }
  }

  lemma SweepKeeps(s: Net, d: string, at: Time, k: string)
    requires Members(s) && GoodFact(s, k) && d in s.nodes
    requires forall j :: j in s.series ==> GoodSeries(j, s.series[j])
    ensures GoodFact(Sweep(s, d, at), k)
  {
    var s' := Sweep(s, d, at);
    SweptSeries(s, d, at, k);
    forall e | e in s'.past && FactKey(e) == k ensures Ended(s', k) > e.expiresAt {
      SweptPast(s, d, at, k, e);
    }
    forall c | c in s'.nodes ensures GoodCell(Cell(s', c, k), k, Series(s', k), c, Ended(s', k)) {
      SweptCell(s, d, at, k, c);
    }
    if Series(s', k) != [] {
      OwnerKept(s, d, at, k);
    }
  }

  /** What the owner's collection does to its series and the end of the last one. */
  lemma SweptSeries(s: Net, d: string, at: Time, k: string)
    requires Members(s) && GoodFact(s, k) && d in s.nodes
    ensures var s' := Sweep(s, d, at);
            if Ends(s, d, k, at) then Series(s', k) == [] && Ended(s', k) == Later(Ended(s, k), at)
            else Series(s', k) == Series(s, k) && Ended(s', k) == Ended(s, k)
  {
    assert GoodCell(Cell(s, d, k), k, Series(s, k), d, Ended(s, k));
  }

  lemma SweptPast(s: Net, d: string, at: Time, k: string, e: Envelope)
    requires Members(s) && GoodFact(s, k) && d in s.nodes && FactKey(e) == k && e in Sweep(s, d, at).past
    requires forall j :: j in s.series ==> GoodSeries(j, s.series[j])
    ensures Ended(Sweep(s, d, at), k) > e.expiresAt
  {
    SweptSeries(s, d, at, k);
    if e !in s.past {
      var j :| j in s.series && Ends(s, d, j, at) && e in s.series[j];
      assert j == k;
      EndedIsExpired(s, d, at, k, e);
    }
  }

  lemma SweptCell(s: Net, d: string, at: Time, k: string, c: string)
    requires Members(s) && GoodFact(s, k) && d in s.nodes && c in s.nodes
    ensures var s' := Sweep(s, d, at); GoodCell(Cell(s', c, k), k, Series(s', k), c, Ended(s', k))
  {
    SweptSeries(s, d, at, k);
    assert GoodCell(Cell(s, c, k), k, Series(s, k), c, Ended(s, k));
    if Ends(s, d, k, at) && c != d && Cell(s, c, k).Some? {
      EndedElsewhere(s, d, at, k, c);
    }
  }

  /** When a series ends, all of it has expired. */
  lemma EndedIsExpired(s: Net, d: string, at: Time, k: string, e: Envelope)
    requires GoodFact(s, k) && d in s.nodes && Ends(s, d, k, at) && e in Series(s, k)
    ensures at > e.expiresAt
  {
    var h := Series(s, k);
    assert GoodCell(Cell(s, d, k), k, h, d, Ended(s, k));
    var i :| 0 <= i < |h| && h[i] == e;
    assert h[i].expiresAt <= h[|h| - 1].expiresAt;
  }

  lemma EndedElsewhere(s: Net, d: string, at: Time, k: string, c: string)
    requires Members(s) && GoodFact(s, k) && d in s.nodes && c in s.nodes && c != d
    requires Ends(s, d, k, at) && k in s.nodes[c]
    ensures Later(Ended(s, k), at) > s.nodes[c][k].expiresAt && s.nodes[c][k].origin != c
  {
    var h, f, own := Series(s, k), s.nodes[c][k], s.nodes[d][k];
    assert GoodCell(Cell(s, c, k), k, h, c, Ended(s, k));
    assert GoodCell(Cell(s, d, k), k, h, d, Ended(s, k));
    OwnRecord(f, k, d, own.factID);
    if Current(f, h) {
      EndedIsExpired(s, d, at, k, f.envelope);
    }
  }

  /** If the series goes on, its owner still holds it. */
  lemma OwnerKept(s: Net, d: string, at: Time, k: string)
    requires Members(s) && GoodFact(s, k) && d in s.nodes && Series(s, k) != [] && !Ends(s, d, k, at)
    ensures Cell(Sweep(s, d, at), Series(s, k)[0].origin, k).Some?
  {
    var h := Series(s, k);
    var o := h[0].origin;
    assert GoodCell(Cell(s, o, k), k, h, o, Ended(s, k));
    if o == d {
      OwnRecord(s.nodes[d][k], k, d, h[0].factID);
    }
  }

  lemma StepKeepsInvariant(s: Net, p: Step)
    requires Invariant(s)
    ensures Invariant(Next(s, p))
  {
    forall k ensures GoodFact(Next(s, p), k) {
      assert GoodFact(s, k);
      StepKeepsFact(s, p, k);
    }
  }

  lemma StepKeepsFact(s: Net, p: Step, k: string)
    requires Invariant(s)
    ensures GoodFact(Next(s, p), k)
  {
    assert GoodFact(s, k);
    match p {
      case Publish(d, e, at) =>
        if MayPublish(s, d, e, at) {
          if FactKey(e) == k {
            PublishKeeps(s, d, e, at);
          } else {
            ApplySeen(s.nodes[d], e, at, k);
            SameCells(s, Next(s, p), k);
          }
        }
      case Receive(d, e, at) =>
        if d in s.nodes && Arrives(s, e, at) {
          if FactKey(e) == k {
            HearKeeps(s, d, e, at);
          } else {
            ApplySeen(s.nodes[d], e, at, k);
            SameCells(s, Next(s, p), k);
          }
        }
      case Collection(d, at) =>
        if d in s.nodes {
          forall j | j in s.series ensures GoodSeries(j, s.series[j]) {
            assert GoodFact(s, j);
          }
          SweepKeeps(s, d, at, k);
        }
    }
  }

  lemma {:induction false} RunKeepsInvariant(s: Net, steps: seq<Step>)
    requires Invariant(s)
    ensures Invariant(Run(s, steps))
  {
    if steps != [] {
      RunKeepsInvariant(s, steps[..|steps| - 1]);
      StepKeepsInvariant(Run(s, steps[..|steps| - 1]), steps[|steps| - 1]);
    }
  }

  // ---------------------------------------------------------------- main results

  /** The record that node `d` holds expired before its owner ended a series, or is the publication of the
      current series with its number, at most the owner's; and at the owner's number it is the owner's
      record, apart from the local receipt time. */
  ghost predicate Replicated(s: Net, k: string, d: string) {
    var h := Series(s, k);
    && (forall i :: 0 <= i < |h| ==> h[i].seqNo == i + 1)
    && (d in s.nodes && k in s.nodes[d] ==>
          var f := s.nodes[d][k];
          Ended(s, k) > f.expiresAt ||
          (&& h != [] && h[0].origin in s.nodes && k in s.nodes[h[0].origin]
           && var own := s.nodes[h[0].origin][k];
              && own.lastSeq == |h| && own.envelope == h[|h| - 1]
              && 1 <= f.lastSeq <= own.lastSeq && f.envelope == h[f.lastSeq - 1]
              && (f.lastSeq == own.lastSeq ==> f.(updatedAt := 0) == own.(updatedAt := 0))))
  }

  /** After any run from empty stores. */
  lemma FactSafety(init: Net, steps: seq<Step>, k: string, d: string)
    requires Initial(init)
    ensures Replicated(Run(init, steps), k, d)
  {
    assert Invariant(init);
    RunKeepsInvariant(init, steps);
    assert GoodFact(Run(init, steps), k);
    GoodFactReplicated(Run(init, steps), k, d);
  }

  lemma GoodFactReplicated(s: Net, k: string, d: string)
    requires GoodFact(s, k)
    ensures Replicated(s, k, d)
  {
    var h := Series(s, k);
    if h != [] {
      OwnerHoldsLast(s, k);
    }
    if d in s.nodes {
      assert GoodCell(Cell(s, d, k), k, h, d, Ended(s, k));
    }
  }

  lemma OwnerHoldsLast(s: Net, k: string)
    requires GoodFact(s, k) && Series(s, k) != []
    ensures var h := Series(s, k); var o := h[0].origin;
            && o in s.nodes && k in s.nodes[o] && s.nodes[o][k].lastSeq == |h| && s.nodes[o][k].envelope == h[|h| - 1]
            && FactMatches(s.nodes[o][k], k)
  {
    var h := Series(s, k);
    var o := h[0].origin;
    assert GoodCell(Cell(s, o, k), k, h, o, Ended(s, k));
    OwnRecord(s.nodes[o][k], k, o, h[0].factID);
  }

  /** A node that receives the newest publication of the series holds it afterwards exactly if it did before, or
      the publication has not expired by its clock and it keeps no old record with a number as large. */
  lemma NewestFactExact(s: Net, d: string, k: string, at: Time)
    requires Invariant(s) && d in s.nodes && Series(s, k) != []
    ensures var h := Series(s, k);
            var c := Cell(Next(s, Receive(d, h[|h| - 1], at)), d, k);
            c.Some? && c.value.envelope == h[|h| - 1]
            <==> || (k in s.nodes[d] && s.nodes[d][k].envelope == h[|h| - 1])
                 || (at <= h[|h| - 1].expiresAt && (k in s.nodes[d] ==> s.nodes[d][k].lastSeq < |h|))
  {
    var h := Series(s, k);
    assert GoodFact(s, k);
    assert GoodCell(Cell(s, d, k), k, h, d, Ended(s, k));
    assert FactKey(h[|h| - 1]) == k;
    ApplySeen(s.nodes[d], h[|h| - 1], at, k);
  }

  /** After its own collection, no earlier than the end of the last series, a node holds nothing of old series,
      so that it catches up with the newest publication. */
  lemma CollectedCatchesUp(s: Net, d: string, k: string, at: Time, later: Time)
    requires Invariant(s) && d in s.nodes && at >= Ended(s, k)
    ensures var s' := Next(s, Collection(d, at)); var h := Series(s', k);
            && (k in s'.nodes[d] ==> Current(s'.nodes[d][k], h))
            && (h != [] && later <= h[|h| - 1].expiresAt ==>
                  var c := Cell(Next(s', Receive(d, h[|h| - 1], later)), d, k);
                  c.Some? && c.value.envelope == h[|h| - 1])
  {
    var s' := Next(s, Collection(d, at));
    StepKeepsInvariant(s, Collection(d, at));
    assert GoodFact(s', k);
    assert GoodCell(Cell(s', d, k), k, Series(s', k), d, Ended(s', k));
    var h := Series(s', k);
    if h != [] {
      NewestFactExact(s', d, k, later);
    }
  }

  // ---------------------------------------------------------------- where the assumptions are needed

  /** The owner publishes two facts of a series and collects; the replica gets the first only and collects at
      the same time. */
  function OwnerAfter(e: Envelope, f: Envelope, now: Time, c: Time): Facts {
    CollectFacts(ApplyFact(ApplyFact(map[], e, now), f, now), c)
  }

  function ReplicaAfter(e: Envelope, now: Time, c: Time): Facts {
    CollectFacts(ApplyFact(map[], e, now), c)
  }

  /** An unexpired record of an ended series can be left exactly when the second publication shortened the
      expiry; the replica then refuses the new series' first number. */
  lemma ShorteningExact(e: Envelope, f: Envelope, now: Time)
    requires e.kind.KindAgentFact? && f.kind.KindAgentFact? && FactKey(e) == FactKey(f)
    requires 0 < e.seqNo < f.seqNo && now <= e.expiresAt && now <= f.expiresAt
    ensures (exists c :: FactKey(e) !in OwnerAfter(e, f, now, c) && FactKey(e) in ReplicaAfter(e, now, c))
            <==> f.expiresAt < e.expiresAt
    ensures forall c, g: Envelope, at ::
              FactKey(e) in ReplicaAfter(e, now, c) && FactKey(g) == FactKey(e) && g.seqNo == 1 ==>
                FactVerdict(Lookup(ReplicaAfter(e, now, c), FactKey(e)), g, at) != Applied
  {
    var k := FactKey(e);
    var one := ApplyFact(map[], e, now);
    assert one == map[k := FactRecord(e, now)];
    assert ApplyFact(one, f, now) == map[k := FactRecord(f, now)];
    if f.expiresAt < e.expiresAt {
      assert k !in OwnerAfter(e, f, now, e.expiresAt) && k in ReplicaAfter(e, now, e.expiresAt);
    }
  }

  /** A clock that is behind can bring an old series back: a replica that has the new series' first number
      and then receives an old envelope with a larger one ends with the old one exactly when that has not
      expired by its clock; so never at or after the end of the old series. */
  lemma BehindExact(first: Envelope, past: Envelope, now: Time, at: Time, ended: Time)
    requires first.kind.KindAgentFact? && past.kind.KindAgentFact? && FactKey(first) == FactKey(past)
    requires first.seqNo < past.seqNo && now <= first.expiresAt && past.expiresAt < ended
    ensures var r := ApplyFact(ApplyFact(map[], first, now), past, at);
            && FactKey(first) in r
            && (r[FactKey(first)].envelope == past <==> at <= past.expiresAt)
            && (at >= ended ==> r[FactKey(first)] == FactRecord(first, now))
  {
    assert ApplyFact(map[], first, now) == map[FactKey(first) := FactRecord(first, now)];
  }
}
