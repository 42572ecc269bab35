/** Two-party negotiation sessions: what each side logs, and exactly when the two logs agree. */
module Negotiations {
  import opened Basics

  datatype NegotiationOp = Offer | Accept | Reject | Cancel | Message | Finish | Unknown(name: string)

  datatype Frame = Frame(
    sessionID: string, refID: string, op: NegotiationOp, fromPeer: string, toPeer: string,
    status: string, body: string, payloadRef: string, timestamp: Time)

  datatype Session = Session(
    sessionID: string, refID: string, peerID: string, state: NegotiationOp, frames: seq<Frame>, updatedAt: Time)

  type Sessions = map<string, Session>

  /** `validateNegotiation` accepts the frame. */
  predicate ValidFrame(f: Frame) {
    f.sessionID != "" && f.refID != "" && !f.op.Unknown?
  }

  /** `RecordNegotiation`. */
  function RecordFrame(m: Sessions, f: Frame, now: Time): Sessions {
    var s := if f.sessionID in m then m[f.sessionID] else Session("", "", "", Unknown(""), [], ZERO_TIME);
    var from := if f.fromPeer != "" then f.fromPeer else s.peerID;
    var peer := if f.toPeer != "" && from == "" then f.toPeer else from;
    m[f.sessionID := Session(f.sessionID, f.refID, peer, f.op, s.frames + [f], now)]
  }

  /** `f` is the last frame of its session, whose header it sets; other sessions are as before. */
  ghost predicate Logged(m: Sessions, m': Sessions, f: Frame, now: Time) {
    var before := if f.sessionID in m then Some(m[f.sessionID]) else None;
    && (forall id :: id != f.sessionID ==> Lookup(m', id) == Lookup(m, id))
    && f.sessionID in m'
    && var s := m'[f.sessionID];
       && s.sessionID == f.sessionID && s.refID == f.refID && s.state == f.op && s.updatedAt == now
       && s.frames == (if before.Some? then before.value.frames else []) + [f]
       && s.peerID == (if f.fromPeer != "" then f.fromPeer
                       else if before.Some? && before.value.peerID != "" then before.value.peerID else f.toPeer)
  }

  lemma RecordLogs(m: Sessions, f: Frame, now: Time)
    ensures Logged(m, RecordFrame(m, f, now), f, now)
  {}

  function Stamped(f: Frame, now: Time): Frame {
    if f.timestamp == ZERO_TIME then f.(timestamp := now) else f
  }

  /** The frame `SendNegotiation` logs and sends; `target` is the other node's ID as the caller wrote it. */
  function Outgoing(self: string, target: string, f: Frame, now: Time): Frame {
    Stamped(f.(fromPeer := self, toPeer := target), now)
  }

  function ReplyStatus(op: NegotiationOp): string {
    match op
    case Accept => "accepted"
    case Reject => "rejected"
    case Cancel => "cancelled"
    case Finish => "completed"
    case _ => "received"
  }

  /** The answer `handleNegotiate` logs and returns. */
  function Reply(self: string, f: Frame, now: Time): Frame {
    Frame(f.sessionID, f.refID, f.op, self, f.fromPeer, ReplyStatus(f.op), "", "", now)
  }

  /** The answer of the stream handler when `handleNegotiate` fails. */
  function ErrorReply(f: Frame, error: string, now: Time): Frame {
    Frame(f.sessionID, f.refID, f.op, f.toPeer, f.fromPeer, "error", error, "", now)
  }

  /** `r` answers `f`: same session, reference and operation, sent back to where it came from, with the status
      that the operation calls for and nothing else. */
  ghost predicate Answers(f: Frame, r: Frame, self: string, now: Time) {
    && r.sessionID == f.sessionID && r.refID == f.refID && r.op == f.op && r.fromPeer == self && r.toPeer == f.fromPeer
    && r.body == "" && r.payloadRef == "" && r.timestamp == now
    && (r.status == "accepted" <==> f.op == Accept) && (r.status == "rejected" <==> f.op == Reject)
    && (r.status == "cancelled" <==> f.op == Cancel) && (r.status == "completed" <==> f.op == Finish)
    && (r.status == "received" <==> f.op !in {Accept, Reject, Cancel, Finish})
  }

  lemma ReplyAnswers(self: string, f: Frame, now: Time)
    ensures Answers(f, Reply(self, f, now), self, now)
  {
    assert "accepted"[0] == 'a' && "rejected"[2] == 'j' && "received"[2] == 'c' && "cancelled"[1] == 'a';
    assert "cancelled"[0] == 'c' && "completed"[1] == 'o' && "rejected"[0] == "received"[0] == 'r';
  }

  /** What is sent and logged is the caller's frame, with the two peers filled in and a time if it has none. */
  lemma OutgoingKeeps(self: string, target: string, f: Frame, now: Time)
    ensures var g := Outgoing(self, target, f, now);
            && g == Frame(f.sessionID, f.refID, f.op, self, target, f.status, f.body, f.payloadRef, g.timestamp)
            && g.timestamp == if f.timestamp == ZERO_TIME then now else f.timestamp
  {}

  /** What the initiator's log begins with after any attempt that names a peer. */
  lemma InitiatorLogs(x: Sessions, y: Sessions, from: string, to: string, t: Attempt)
    requires !t.fate.BadTarget?
    ensures var f := t.frame; var id := f.sessionID;
            var u, u' := Frames(x, id), Frames(Exchange(x, y, from, to, t).0, id);
            && |u'| > |u| && u'[..|u|] == u
            && u'[|u|] == Frame(id, f.refID, f.op, from, t.target, f.status, f.body, f.payloadRef, u'[|u|].timestamp)
            && u'[|u|].timestamp == if f.timestamp == ZERO_TIME then t.sent else f.timestamp
  {
    var f := Outgoing(from, t.target, t.frame, t.sent);
    var id := f.sessionID;
    var logged := RecordFrame(x, f, t.sent);
    FramesAfter(x, f, t.sent, id);
    OutgoingKeeps(from, t.target, t.frame, t.sent);
    var g := Stamped(f, t.answered);
    FramesAfter(logged, Reply(to, g, t.answered), t.answered, id);
    if t.fate.Unrecorded? {
      FramesAfter(logged, ErrorReply(g, t.fate.error, t.answered), t.answered, id);
    }
  }


  // ---------------------------------------------------------------- exchanges

  /** How far an attempt gets: the target is not a peer ID; the initiator's save or the stream fails; the
      responder's save fails, and its error answer may arrive; answered, but lost on the way; answered. */
  datatype Fate = BadTarget | Unreachable | Unrecorded(error: string, told: bool) | ReplyLost | Answered

  datatype Attempt = Attempt(byFirst: bool, frame: Frame, target: string, fate: Fate, sent: Time, answered: Time)

  /** The logs of the two nodes. */
  datatype Logs = Logs(first: Sessions, second: Sessions)

  /** The initiator logs its frame first; it is validated only once a stream is open. A failed save leaves
      its frame in memory. */
  function Exchange(initiator: Sessions, responder: Sessions, from: string, to: string, t: Attempt)
    : (Sessions, Sessions)
  {
    var f := Outgoing(from, t.target, t.frame, t.sent);
    var logged := RecordFrame(initiator, f, t.sent);
    if t.fate.BadTarget? then (initiator, responder)
    else if t.fate.Unreachable? || !ValidFrame(f) then (logged, responder)
    else
      var g := Stamped(f, t.answered);
      var received := RecordFrame(responder, g, t.answered);
      var r := Reply(to, g, t.answered);
      match t.fate
      case Unrecorded(error, told) =>
        (if told then RecordFrame(logged, ErrorReply(g, error, t.answered), t.answered) else logged, received)
      case Answered => (RecordFrame(logged, r, t.answered), RecordFrame(received, r, t.answered))
      case _ => (logged, RecordFrame(received, r, t.answered))
  }

  function Step(l: Logs, a: string, b: string, t: Attempt): Logs {
    if t.byFirst
    then var (x, y) := Exchange(l.first, l.second, a, b, t); Logs(x, y)
    else var (y, x) := Exchange(l.second, l.first, b, a, t); Logs(x, y)
  }

  function Run(a: string, b: string, ts: seq<Attempt>): Logs {
    if ts == [] then Logs(map[], map[]) else Step(Run(a, b, ts[..|ts| - 1]), a, b, ts[|ts| - 1])
  }

  /** The caller gets an answer back. */
  predicate Succeeds(t: Attempt) {
    t.fate.Answered? && ValidFrame(t.frame)
  }

  /** Both nodes log the same: a success, nothing at all, or the frame without any answer. */
  predicate Balanced(t: Attempt) {
    Succeeds(t) || t.fate.BadTarget? || (t.fate.Unrecorded? && !t.fate.told && ValidFrame(t.frame))
  }

  /** The responder's failed save is told to the initiator, which logs the error as an answer. */
  predicate LogsError(t: Attempt) {
    t.fate.Unrecorded? && t.fate.told && ValidFrame(t.frame)
  }

  /** Both nodes log the same, but for an error answer. */
  predicate Even(t: Attempt) {
    Balanced(t) || LogsError(t)
  }

  /** No caller sends a frame in the session that claims to be an error answer. */
  ghost predicate NoErrorSent(ts: seq<Attempt>, id: string) {
    forall t :: t in ts && t.frame.sessionID == id ==> !IsError(t.frame)
  }

  ghost predicate ClockRuns(ts: seq<Attempt>) {
    forall t :: t in ts ==> t.sent > ZERO_TIME
  }

  function Frames(m: Sessions, id: string): seq<Frame> {
    if id in m then m[id].frames else []
  }

  predicate IsError(f: Frame) {
    f.status == "error"
  }

  /** How many frames of `peer` are not error answers. */
  function FramesFrom(fs: seq<Frame>, peer: string): nat {
    if fs == [] then 0
    else FramesFrom(fs[..|fs| - 1], peer) + if Proper(fs[|fs| - 1], peer) then 1 else 0
  }

  predicate Proper(f: Frame, peer: string) {
    f.fromPeer == peer && !IsError(f)
  }

  /** Attempts in session `id` whose frame or answer only one node logs, error answers aside. */
  function Failures(ts: seq<Attempt>, id: string): nat {
    if ts == [] then 0
    else
      var t := ts[|ts| - 1];
      Failures(ts[..|ts| - 1], id) + if t.frame.sessionID == id && !Even(t) then 1 else 0
  }

  lemma FramesFromAppend(fs: seq<Frame>, f: Frame, peer: string)
    ensures FramesFrom(fs + [f], peer) == FramesFrom(fs, peer) + if Proper(f, peer) then 1 else 0
  {}

  lemma FramesAfter(m: Sessions, f: Frame, now: Time, id: string)
    ensures Frames(RecordFrame(m, f, now), id) == if f.sessionID == id then Frames(m, id) + [f] else Frames(m, id)
  {}

  /** One exchange, seen in one session by both sides. */
  lemma ExchangeFrames(x: Sessions, y: Sessions, from: string, to: string, t: Attempt, id: string)
    requires t.sent > ZERO_TIME && t.frame.sessionID == id
    ensures var (x', y') := Exchange(x, y, from, to, t);
            var f := Outgoing(from, t.target, t.frame, t.sent);
            var r := Reply(to, f, t.answered);
            var u, v := Frames(x, id), Frames(y, id);
            (Frames(x', id), Frames(y', id)) ==
            if t.fate.BadTarget? then (u, v)
            else if Succeeds(t) then (u + [f] + [r], v + [f] + [r])
            else if LogsError(t) then (u + [f] + [ErrorReply(f, t.fate.error, t.answered)], v + [f])
            else if Balanced(t) then (u + [f], v + [f])
            else if t.fate.ReplyLost? && ValidFrame(t.frame) then (u + [f], v + [f] + [r])
            else (u + [f], v)
  {
    var f := Outgoing(from, t.target, t.frame, t.sent);
    var r := Reply(to, f, t.answered);
    var logged, received := RecordFrame(x, f, t.sent), RecordFrame(y, f, t.answered);
    FramesAfter(x, f, t.sent, id);
    FramesAfter(y, f, t.answered, id);
    FramesAfter(logged, r, t.answered, id);
    FramesAfter(received, r, t.answered, id);
    if LogsError(t) {
      FramesAfter(logged, ErrorReply(f, t.fate.error, t.answered), t.answered, id);
    }
  }

  /** The surplus grows by one exactly when the attempt is not even. */
  lemma ExchangeSurplus(x: Sessions, y: Sessions, from: string, to: string, t: Attempt, id: string)
    requires from != to && t.sent > ZERO_TIME && t.frame.sessionID == id && !IsError(t.frame)
    ensures var (x', y') := Exchange(x, y, from, to, t);
            var u, v, u', v' := Frames(x, id), Frames(y, id), Frames(x', id), Frames(y', id);
            var own := FramesFrom(u', from) - FramesFrom(v', from) - (FramesFrom(u, from) - FramesFrom(v, from));
            var other := FramesFrom(v', to) - FramesFrom(u', to) - (FramesFrom(v, to) - FramesFrom(u, to));
            && own >= 0 && other >= 0 && own + other == (if Even(t) then 0 else 1)
            && (Balanced(t) && u == v ==> u' == v')
  {
    ExchangeFrames(x, y, from, to, t, id);
    var f := Outgoing(from, t.target, t.frame, t.sent);
    var r := Reply(to, f, t.answered);
    PairSurplus(Frames(x, id), f, r, from, to);
    PairSurplus(Frames(y, id), f, r, from, to);
    if LogsError(t) {
      var e := ErrorReply(f, t.fate.error, t.answered);
      FramesFromAppend(Frames(x, id) + [f], e, from);
      FramesFromAppend(Frames(x, id) + [f], e, to);
    }
  }

  lemma PairSurplus(u: seq<Frame>, f: Frame, r: Frame, from: string, to: string)
    requires Proper(f, from) && Proper(r, to) && from != to
    ensures FramesFrom(u + [f], from) == FramesFrom(u, from) + 1 && FramesFrom(u + [f], to) == FramesFrom(u, to)
    ensures FramesFrom(u + [f] + [r], from) == FramesFrom(u, from) + 1
    ensures FramesFrom(u + [f] + [r], to) == FramesFrom(u, to) + 1
  {
    FramesFromAppend(u, f, from);
    FramesFromAppend(u, f, to);
    FramesFromAppend(u + [f], r, from);
    FramesFromAppend(u + [f], r, to);
  }

  ghost predicate AllBalanced(ts: seq<Attempt>, id: string) {
    forall t :: t in ts && t.frame.sessionID == id ==> Balanced(t)
  }

  /** Error answers aside, each node has logged at least as many of its own frames as the other, and the
      surplus of the two sides together is the number of attempts that are not even. */
  lemma {:induction false} SurplusCountsFailures(a: string, b: string, ts: seq<Attempt>, id: string)
    requires a != b && ClockRuns(ts) && NoErrorSent(ts, id)
    ensures var l := Run(a, b, ts); var x, y := Frames(l.first, id), Frames(l.second, id);
            && FramesFrom(x, a) >= FramesFrom(y, a) && FramesFrom(y, b) >= FramesFrom(x, b)
            && FramesFrom(x, a) - FramesFrom(y, a) + FramesFrom(y, b) - FramesFrom(x, b) == Failures(ts, id)
            && (AllBalanced(ts, id) ==> x == y)
  {
    if ts != [] {
      var front, t := ts[..|ts| - 1], ts[|ts| - 1];
      assert ts == front + [t];
      SurplusCountsFailures(a, b, front, id);
      var l := Run(a, b, front);
      if t.frame.sessionID != id {
        OtherSession(l, a, b, t, id);
      } else if t.byFirst {
        ExchangeSurplus(l.first, l.second, a, b, t, id);
      } else {
        ExchangeSurplus(l.second, l.first, b, a, t, id);
      }
    }
  }

  lemma {:induction false} NoFailures(ts: seq<Attempt>, id: string)
    ensures Failures(ts, id) == 0 <==> forall t :: t in ts && t.frame.sessionID == id ==> Even(t)
  {
    if ts != [] {
      NoFailures(ts[..|ts| - 1], id);
      assert ts == ts[..|ts| - 1] + [ts[|ts| - 1]];
    }
  }

  /** Every error answer in the log was logged by `peer` as the one who asked. */
  ghost predicate ErrorsTold(fs: seq<Frame>, peer: string) {
    forall f :: f in fs && IsError(f) ==> f.toPeer == peer
  }

  ghost predicate HasError(fs: seq<Frame>) {
    exists f :: f in fs && IsError(f)
  }

  lemma ExchangeErrors(x: Sessions, y: Sessions, from: string, to: string, t: Attempt, id: string)
    requires t.sent > ZERO_TIME && t.frame.sessionID == id && !IsError(t.frame)
    requires ErrorsTold(Frames(x, id), from) && ErrorsTold(Frames(y, id), to)
    ensures var (x', y') := Exchange(x, y, from, to, t);
            && ErrorsTold(Frames(x', id), from) && ErrorsTold(Frames(y', id), to)
            && (HasError(Frames(x', id)) <==> HasError(Frames(x, id)) || LogsError(t))
            && (HasError(Frames(y', id)) <==> HasError(Frames(y, id)))
  {
    ExchangeFrames(x, y, from, to, t, id);
    var f := Outgoing(from, t.target, t.frame, t.sent);
    var r := Reply(to, f, t.answered);
    ErrorsAppend(Frames(x, id), f);
    ErrorsAppend(Frames(y, id), f);
    ErrorsAppend(Frames(x, id) + [f], r);
    ErrorsAppend(Frames(y, id) + [f], r);
    if LogsError(t) {
      ErrorsAppend(Frames(x, id) + [f], ErrorReply(f, t.fate.error, t.answered));
    }
  }

  lemma ErrorsAppend(fs: seq<Frame>, f: Frame)
    ensures HasError(fs + [f]) <==> HasError(fs) || IsError(f)
    ensures forall peer :: ErrorsTold(fs + [f], peer) <==> ErrorsTold(fs, peer) && (IsError(f) ==> f.toPeer == peer)
  {
    assert forall g :: g in fs + [f] <==> g in fs || g == f;
  }

  /** The logs hold error answers exactly when some attempt got one. */
  lemma {:induction false} RunErrors(a: string, b: string, ts: seq<Attempt>, id: string)
    requires ClockRuns(ts) && NoErrorSent(ts, id)
    ensures var x, y := Frames(Run(a, b, ts).first, id), Frames(Run(a, b, ts).second, id);
            && ErrorsTold(x, a) && ErrorsTold(y, b)
            && (HasError(x) || HasError(y) <==> exists t :: t in ts && t.frame.sessionID == id && LogsError(t))
  {
    if ts != [] {
      var front, t := ts[..|ts| - 1], ts[|ts| - 1];
      assert ts == front + [t];
      RunErrors(a, b, front, id);
      var l := Run(a, b, front);
      if t.frame.sessionID != id {
        OtherSession(l, a, b, t, id);
      } else if t.byFirst {
        ExchangeErrors(l.first, l.second, a, b, t, id);
      } else {
        ExchangeErrors(l.second, l.first, b, a, t, id);
      }
    }
  }

  lemma ErrorsApart(x: seq<Frame>, y: seq<Frame>, a: string, b: string)
    requires a != b && ErrorsTold(x, a) && ErrorsTold(y, b)
    ensures HasError(x) || HasError(y) ==> x != y
  {
    if f :| f in x && IsError(f) {
      assert f !in y;
    }
    if f :| f in y && IsError(f) {
      assert f !in x;
    }
  }

  /** The two nodes' frames of a session agree exactly when every attempt in it was balanced: one refused,
      unreachable or unanswered frame, or one error answer, is never made up for. */
  lemma FramesAgreeExact(a: string, b: string, ts: seq<Attempt>, id: string)
    requires a != b && ClockRuns(ts) && NoErrorSent(ts, id)
    ensures Frames(Run(a, b, ts).first, id) == Frames(Run(a, b, ts).second, id) <==> AllBalanced(ts, id)
  {
    SurplusCountsFailures(a, b, ts, id);
    NoFailures(ts, id);
    RunErrors(a, b, ts, id);
    ErrorsApart(Frames(Run(a, b, ts).first, id), Frames(Run(a, b, ts).second, id), a, b);
  }

  /** A frame that claims to be an error answer can make up for one: the other node sends just that frame,
      and it does not get through. */
  lemma ErrorMadeUpFor(a: string, b: string, f: Frame, error: string, sent: Time, answered: Time)
    requires a != b && sent > ZERO_TIME && answered > ZERO_TIME && ValidFrame(f)
    ensures var t := Attempt(true, f, b, Unrecorded(error, true), sent, answered);
            var g := Frame(f.sessionID, f.refID, f.op, "", "", "error", error, "", answered);
            var u := Attempt(false, g, a, Unreachable, sent, answered);
            var l := Run(a, b, [t, u]);
            && !Balanced(t) && !Balanced(u) && Frames(l.first, f.sessionID) == Frames(l.second, f.sessionID) != []
  {
    var t := Attempt(true, f, b, Unrecorded(error, true), sent, answered);
    var g := Frame(f.sessionID, f.refID, f.op, "", "", "error", error, "", answered);
    var u := Attempt(false, g, a, Unreachable, sent, answered);
    assert [t, u][..1] == [t] && [t][..0] == [];
    assert Run(a, b, [t]) == Step(Logs(map[], map[]), a, b, t);
  }

  // ---------------------------------------------------------------- shape of an agreed session

  /** `r` answers the request `f` of one of the two nodes. */
  ghost predicate AnswerTo(f: Frame, r: Frame, a: string, b: string) {
    && r.sessionID == f.sessionID && r.refID == f.refID && r.op == f.op
    && (f.fromPeer, r.fromPeer) in {(a, b), (b, a)} && r.toPeer == f.fromPeer && r.status == ReplyStatus(f.op)
  }

  /** Requests and answers alternate, and the session header repeats the last frame. */
  ghost predicate WellFormedSession(s: Session, id: string, a: string, b: string) {
    && s.frames != [] && |s.frames| % 2 == 0
    && (forall i :: 0 <= i < |s.frames| ==> s.frames[i].sessionID == id)
    && (forall i :: 0 <= i < |s.frames| - 1 && i % 2 == 0 ==> AnswerTo(s.frames[i], s.frames[i + 1], a, b))
    && var last := s.frames[|s.frames| - 1];
       s == Session(id, last.refID, last.fromPeer, last.op, s.frames, s.updatedAt)
  }

  /** Equal apart from the local update time. */
  ghost predicate SameSession(x: Option<Session>, y: Option<Session>) {
    match (x, y)
    case (None, None) => true
    case (Some(s), Some(t)) => s.(updatedAt := ZERO_TIME) == t.(updatedAt := ZERO_TIME)
    case _ => false
  }

  /** Logging a request and its answer extends a well-formed session. */
  lemma RequestAndAnswer(m: Sessions, f: Frame, r: Frame, now: Time, later: Time, id: string, a: string, b: string)
    requires a != "" && b != "" && f.sessionID == id && AnswerTo(f, r, a, b)
    requires id in m ==> WellFormedSession(m[id], id, a, b)
    ensures var m' := RecordFrame(RecordFrame(m, f, now), r, later);
            && id in m' && WellFormedSession(m'[id], id, a, b)
            && m'[id] == Session(id, r.refID, r.fromPeer, r.op, Frames(m, id) + [f] + [r], later)
  {
    var m' := RecordFrame(RecordFrame(m, f, now), r, later);
    var fs, all := Frames(m, id), m'[id].frames;
    assert all == fs + [f] + [r];
    forall i | 0 <= i < |all| - 1 && i % 2 == 0 ensures AnswerTo(all[i], all[i + 1], a, b) {
      assert i < |fs| ==> all[i] == fs[i] && all[i + 1] == fs[i + 1];
    }
    assert forall i :: 0 <= i < |all| ==> all[i] == if i < |fs| then fs[i] else if i == |fs| then f else r;
  }

  lemma ExchangeWellFormed(x: Sessions, y: Sessions, from: string, to: string, t: Attempt, id: string)
    requires from != "" && to != "" && t.sent > ZERO_TIME
    requires Succeeds(t) && t.frame.sessionID == id
    requires SameSession(Lookup(x, id), Lookup(y, id))
    requires id in x ==> WellFormedSession(x[id], id, from, to) && WellFormedSession(y[id], id, from, to)
    ensures var (x', y') := Exchange(x, y, from, to, t);
            && SameSession(Lookup(x', id), Lookup(y', id)) && id in x'
            && WellFormedSession(x'[id], id, from, to) && WellFormedSession(y'[id], id, from, to)
  {
    var f := Outgoing(from, t.target, t.frame, t.sent);
    var r := Reply(to, f, t.answered);
    RequestAndAnswer(x, f, r, t.sent, t.answered, id, from, to);
    RequestAndAnswer(y, f, r, t.answered, t.answered, id, from, to);
  }

  lemma WellFormedSymmetric(s: Session, id: string, a: string, b: string)
    requires WellFormedSession(s, id, a, b)
    ensures WellFormedSession(s, id, b, a)
  {}

  /** Both nodes hold the same session, and a well-formed one if any. */
  ghost predicate Agreed(l: Logs, a: string, b: string, id: string) {
    && SameSession(Lookup(l.first, id), Lookup(l.second, id))
    && (id in l.first ==> WellFormedSession(l.first[id], id, a, b) && WellFormedSession(l.second[id], id, a, b))
  }

  lemma AgreementStep(l: Logs, a: string, b: string, t: Attempt, id: string)
    requires a != "" && b != "" && t.sent > ZERO_TIME && Agreed(l, a, b, id)
    requires t.frame.sessionID == id ==> Succeeds(t)
    ensures Agreed(Step(l, a, b, t), a, b, id)
    ensures id in Step(l, a, b, t).first <==> id in l.first || t.frame.sessionID == id
  {
    if t.frame.sessionID != id {
      OtherSession(l, a, b, t, id);
    } else if t.byFirst {
      ExchangeWellFormed(l.first, l.second, a, b, t, id);
    } else {
      SuccessOfSecond(l, a, b, t, id);
    }
  }

  lemma SuccessOfSecond(l: Logs, a: string, b: string, t: Attempt, id: string)
    requires a != "" && b != "" && t.sent > ZERO_TIME && Agreed(l, a, b, id)
    requires t.frame.sessionID == id && Succeeds(t) && !t.byFirst
    ensures Agreed(Step(l, a, b, t), a, b, id) && id in Step(l, a, b, t).first
  {
    if id in l.first {
      WellFormedSymmetric(l.first[id], id, a, b);
      WellFormedSymmetric(l.second[id], id, a, b);
    }
    ExchangeWellFormed(l.second, l.first, b, a, t, id);
    var l' := Step(l, a, b, t);
    WellFormedSymmetric(l'.first[id], id, b, a);
    WellFormedSymmetric(l'.second[id], id, b, a);
  }

  lemma OtherSession(l: Logs, a: string, b: string, t: Attempt, id: string)
    requires t.frame.sessionID != id
    ensures Lookup(Step(l, a, b, t).first, id) == Lookup(l.first, id)
    ensures Lookup(Step(l, a, b, t).second, id) == Lookup(l.second, id)
  {
    if t.byFirst {
      OtherExchange(l.first, l.second, a, b, t, id);
    } else {
      OtherExchange(l.second, l.first, b, a, t, id);
    }
  }

  lemma OtherExchange(x: Sessions, y: Sessions, from: string, to: string, t: Attempt, id: string)
    requires t.frame.sessionID != id
    ensures Lookup(Exchange(x, y, from, to, t).0, id) == Lookup(x, id)
    ensures Lookup(Exchange(x, y, from, to, t).1, id) == Lookup(y, id)
  {
    forall m, f: Frame, now | f.sessionID != id ensures Lookup(RecordFrame(m, f, now), id) == Lookup(m, id) {}
  }

  /** After any run of exchanges in a session that succeed or do not even name a peer, started by either
      side and interleaved with any traffic in other sessions, both nodes hold the same well-formed session. */
  lemma {:induction false} SessionsAgree(a: string, b: string, ts: seq<Attempt>, id: string)
    requires a != b && a != "" && b != "" && ClockRuns(ts)
    requires forall t :: t in ts && t.frame.sessionID == id ==> Succeeds(t) || t.fate.BadTarget?
    ensures var l := Run(a, b, ts);
            && Agreed(l, a, b, id)
            && (id in l.first <==> exists t :: t in ts && t.frame.sessionID == id && Succeeds(t))
  {
    if ts != [] {
      var front, t := ts[..|ts| - 1], ts[|ts| - 1];
      assert ts == front + [t];
      SessionsAgree(a, b, front, id);
      if !t.fate.BadTarget? {
        AgreementStep(Run(a, b, front), a, b, t, id);
      }
    }
  }
}
