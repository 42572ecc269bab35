/** The fixed-window limiter of `AllowPeer`: how much it lets through in any interval. */
module RateLimit {
  import opened Basics

  datatype PeerRate = PeerRate(windowStart: Time, count: nat)

  type Rates = map<string, PeerRate>

  /** The window a call at `now` falls into. */
  function Window(rates: Rates, peer: string, now: Time): PeerRate {
    var r := if peer in rates then rates[peer] else PeerRate(ZERO_TIME, 0);
    if r.windowStart == ZERO_TIME || now - r.windowStart >= MINUTE then PeerRate(now, 0) else r
  }

  function Limited(peer: string, limit: int): bool {
    limit > 0 && peer != ""
  }

  function CountCall(rates: Rates, peer: string, limit: int, now: Time): Rates {
    if Limited(peer, limit)
    then var w := Window(rates, peer, now); rates[peer := w.(count := w.count + 1)]
    else rates
  }

  predicate Allows(rates: Rates, peer: string, limit: int, now: Time) {
    Limited(peer, limit) ==> Window(rates, peer, now).count + 1 <= limit
  }

  // ---------------------------------------------------------------- runs

  datatype Call = Call(peer: string, at: Time)

  function RunCalls(calls: seq<Call>, limit: int): Rates {
    if calls == [] then map[]
    else
      var last := calls[|calls| - 1];
      CountCall(RunCalls(calls[..|calls| - 1], limit), last.peer, limit, last.at)
  }

  /** The clock does not go back and is past Go's zero time. */
  ghost predicate ClockOrdered(calls: seq<Call>) {
    && (forall c :: c in calls ==> c.at > ZERO_TIME)
    && (forall i, j :: 0 <= i < j < |calls| ==> calls[i].at <= calls[j].at)
  }

  predicate Within(c: Call, peer: string, a: int, b: int) {
    c.peer == peer && a <= c.at < b
  }

  /** How many calls of `peer` arrive in the half-open interval from `a` to `b`. */
  function Sent(calls: seq<Call>, peer: string, a: int, b: int): nat {
    if calls == [] then 0
    else
      Sent(calls[..|calls| - 1], peer, a, b) + if Within(calls[|calls| - 1], peer, a, b) then 1 else 0
  }

  function SentInMinute(calls: seq<Call>, peer: string, a: int): nat {
    Sent(calls, peer, a, a + MINUTE)
  }

  /** How many of them are allowed. */
  function Admitted(calls: seq<Call>, peer: string, limit: int, a: int, b: int): nat {
    if calls == [] then 0
    else
      var front, last := calls[..|calls| - 1], calls[|calls| - 1];
      Admitted(front, peer, limit, a, b)
      + if Within(last, peer, a, b) && Allows(RunCalls(front, limit), peer, limit, last.at) then 1 else 0
  }

  // ---------------------------------------------------------------- upper bound

  function Min(x: int, y: int): int {
    if x <= y then x else y
  }

  /** The most that gets through in a half-open interval of `d` nanoseconds: a full limit for each window
      that can start in it and, unless the windows just fit, all but one call of an earlier window. */
  function MostIn(d: int, limit: int): int
    requires d > 0
  {
    MostInParts((d - 1) / MINUTE, (d - 1) % MINUTE, limit)
  }

  function MostInParts(minutes: int, rest: int, limit: int): int {
    limit * (minutes + 1) + if rest == 0 then 0 else limit - 1
  }

  /** What got through when the current window started in the interval: without or with the rest of a
      window that started before it. */
  ghost predicate Inside(n: nat, w: PeerRate, limit: int, a: int) {
    || n <= limit * ((w.windowStart - a) / MINUTE) + Min(w.count, limit)
    || (w.windowStart > a && n <= limit - 1 + limit * ((w.windowStart - a - 1) / MINUTE) + Min(w.count, limit))
  }

  /** The most that the window state `r` lets through between `a` and `b`. */
  ghost predicate Bounded(n: nat, r: Option<PeerRate>, limit: int, a: int, b: int)
    requires a < b
  {
    match r
    case None => n == 0
    case Some(w) =>
      && w.windowStart > ZERO_TIME && w.count > 0
      && if w.windowStart < a then n <= Min(w.count, limit) - 1 && (n > 0 ==> w.windowStart + MINUTE > a)
         else if w.windowStart < b then Inside(n, w, limit, a)
         else n <= MostIn(b - a, limit)
  }

  lemma ScaleUp(limit: nat, q: int, q': int)
    requires q + 1 <= q'
    ensures limit * q + limit <= limit * q'
  {
    assert limit * (q + 1) <= limit * q';
  }

  lemma MinuteLater(x: int, y: int)
    requires x + MINUTE <= y
    ensures x / MINUTE + 1 <= y / MINUTE
  {}

  /** Windows starting a minute apart: the quotients move on. */
  lemma LaterWindow(limit: nat, x: int, y: int)
    requires x + MINUTE <= y
    ensures limit * (x / MINUTE) + limit <= limit * (y / MINUTE)
  {
    MinuteLater(x, y);
    ScaleUp(limit, x / MINUTE, y / MINUTE);
  }

  /** A full window inside the interval is within its bound. */
  lemma InsideAtMost(n: nat, w: PeerRate, limit: int, a: int, b: int)
    requires limit > 0 && a <= w.windowStart < b && Inside(n, w, limit, a)
    ensures n <= MostIn(b - a, limit)
  {
    var x, q := w.windowStart - a, (b - a - 1) / MINUTE;
    OneMore(limit, q);
    if n <= limit * (x / MINUTE) + Min(w.count, limit) {
      ScaleUp(limit, x / MINUTE, q + 1);
    } else {
      RestInside(limit, x - 1, b - a - 1);
    }
  }

  lemma RestInside(limit: nat, x: int, y: int)
    requires 0 <= x < y && limit > 0
    ensures limit - 1 + limit * (x / MINUTE) + limit
            <= limit * (y / MINUTE + 1) + if y % MINUTE == 0 then 0 else limit - 1
  {
    RestQuotient(x, y);
    OneMore(limit, y / MINUTE);
    ScaleUp(limit, x / MINUTE, if y % MINUTE == 0 then y / MINUTE else y / MINUTE + 1);
  }

  lemma RestQuotient(x: int, y: int)
    requires 0 <= x < y
    ensures x / MINUTE + 1 <= if y % MINUTE == 0 then y / MINUTE else y / MINUTE + 1
  {}

  lemma AppendCall(calls: seq<Call>, c: Call, peer: string, limit: int, a: int, b: int)
    ensures RunCalls(calls + [c], limit) == CountCall(RunCalls(calls, limit), c.peer, limit, c.at)
    ensures Admitted(calls + [c], peer, limit, a, b)
            == Admitted(calls, peer, limit, a, b)
               + if Within(c, peer, a, b) && Allows(RunCalls(calls, limit), peer, limit, c.at) then 1 else 0
  {}

  /** A call in the interval that starts a new window. */
  lemma FreshWindow(n: nat, r: Option<PeerRate>, limit: int, a: int, b: int, at: Time)
    requires limit > 0 && a <= at < b && at > ZERO_TIME
    requires Bounded(n, r, limit, a, b)
    requires r.Some? ==> r.value.windowStart + MINUTE <= at
    ensures Inside(n + 1, PeerRate(at, 1), limit, a)
  {
    NonNegative(limit, at - a);
    if r.Some? && n > 0 {
      NonNegative(limit, at - a - 1);
      var w := r.value.windowStart;
      if w >= a {
        LaterWindow(limit, w - a, at - a);
        if w > a {
          LaterWindow(limit, w - a - 1, at - a - 1);
        }
      }
    }
  }

  lemma NonNegative(limit: nat, x: int)
    ensures x >= 0 ==> limit * (x / MINUTE) >= 0
  {}

  /** A call after the interval that starts a new window. */
  lemma WindowBeyond(n: nat, r: Option<PeerRate>, limit: int, a: int, b: int)
    requires limit > 0 && a < b && Bounded(n, r, limit, a, b)
    ensures n <= MostIn(b - a, limit)
  {
    NonNegative(limit, b - a - 1);
    assert limit * ((b - a - 1) / MINUTE + 1) == limit * ((b - a - 1) / MINUTE) + limit;
    if r.Some? && a <= r.value.windowStart < b {
      InsideAtMost(n, r.value, limit, a, b);
    }
  }

  /** One more call of the peer keeps the bound. */
  lemma BoundedStep(n: nat, rates: Rates, peer: string, limit: int, a: int, b: int, at: Time)
    requires limit > 0 && peer != "" && a < b && at > ZERO_TIME
    requires Bounded(n, Lookup(rates, peer), limit, a, b)
    requires peer in rates ==> rates[peer].windowStart <= at
    requires at < a ==> n == 0
    ensures Bounded(n + if a <= at < b && Allows(rates, peer, limit, at) then 1 else 0,
                    Lookup(CountCall(rates, peer, limit, at), peer), limit, a, b)
  {
    if peer !in rates || at - rates[peer].windowStart >= MINUTE {
      if a <= at < b {
        FreshWindow(n, Lookup(rates, peer), limit, a, b, at);
      } else if at >= b {
        WindowBeyond(n, Lookup(rates, peer), limit, a, b);
      }
    }
  }

  /** A window starts no later than the latest call. */
  lemma {:induction false} WindowStarted(calls: seq<Call>, peer: string, limit: int, now: Time)
    requires forall c :: c in calls ==> c.at <= now
    ensures peer in RunCalls(calls, limit) ==> RunCalls(calls, limit)[peer].windowStart <= now
  {
    if calls != [] {
      var last := calls[|calls| - 1];
      assert last in calls;
      WindowStarted(calls[..|calls| - 1], peer, limit, now);
      if last.peer == peer {
        assert last.at <= now;
      }
    }
  }

  lemma {:induction false} NothingBefore(calls: seq<Call>, peer: string, limit: int, a: int, b: int)
    requires forall c :: c in calls ==> c.at < a
    ensures Admitted(calls, peer, limit, a, b) == 0
  {
    if calls != [] {
      assert calls[|calls| - 1] in calls;
      NothingBefore(calls[..|calls| - 1], peer, limit, a, b);
    }
  }

  lemma {:induction false} RunBounded(calls: seq<Call>, peer: string, limit: int, a: int, b: int)
    requires ClockOrdered(calls) && limit > 0 && peer != "" && a < b
    ensures Bounded(Admitted(calls, peer, limit, a, b), Lookup(RunCalls(calls, limit), peer), limit, a, b)
  {
    if calls != [] {
      var front, last := calls[..|calls| - 1], calls[|calls| - 1];
      assert calls == front + [last];
      assert forall c :: c in front ==> c.at <= last.at;
      RunBounded(front, peer, limit, a, b);
      AppendCall(front, last, peer, limit, a, b);
      var n, rates := Admitted(front, peer, limit, a, b), RunCalls(front, limit);
      if last.peer == peer {
        WindowStarted(front, peer, limit, last.at);
        if last.at < a {
          NothingBefore(front, peer, limit, a, b);
        }
        BoundedStep(n, rates, peer, limit, a, b, last.at);
      } else {
        OtherPeer(rates, peer, last.peer, limit, last.at);
      }
    }
  }

  lemma OtherPeer(rates: Rates, peer: string, other: string, limit: int, now: Time)
    requires peer != other
    ensures Lookup(CountCall(rates, other, limit, now), peer) == Lookup(rates, peer)
  {}

  /** Minutes needed to cover `d` nanoseconds. */
  function MinutesUp(d: int): int {
    (d + MINUTE - 1) / MINUTE
  }

  /** In any half-open interval of `d` nanoseconds at most that many calls of a peer get through; it is less
      than (the minutes that cover d, plus 1) times the limit, and less than twice the limit a minute. */
  lemma AdmittedAtMost(calls: seq<Call>, peer: string, limit: int, a: int, d: nat)
    requires ClockOrdered(calls) && limit > 0 && peer != "" && d > 0
    ensures Admitted(calls, peer, limit, a, a + d) <= MostIn(d, limit) <= (MinutesUp(d) + 1) * limit - 1
    ensures d == MINUTE ==> MostIn(d, limit) == 2 * limit - 1
  {
    RunBounded(calls, peer, limit, a, a + d);
    WindowBeyond(Admitted(calls, peer, limit, a, a + d), Lookup(RunCalls(calls, limit), peer), limit, a, a + d);
    assert MinutesUp(d) == (d - 1) / MINUTE + 1;
    assert (MinutesUp(d) + 1) * limit == limit * MinutesUp(d) + limit;
  }

  // ---------------------------------------------------------------- the bound is reached

  function Burst(n: nat, peer: string, at: Time): seq<Call> {
    seq(n, i => Call(peer, at))
  }

  lemma {:induction false} BurstAdmitted(calls: seq<Call>, n: nat, peer: string, at: Time, limit: int, a: int, b: int)
    requires limit > 0 && peer != "" && at > ZERO_TIME
    requires Window(RunCalls(calls, limit), peer, at).count + n <= limit
    ensures var all, w := calls + Burst(n, peer, at), Window(RunCalls(calls, limit), peer, at);
            && Admitted(all, peer, limit, a, b) == Admitted(calls, peer, limit, a, b) + (if a <= at < b then n else 0)
            && Window(RunCalls(all, limit), peer, at) == w.(count := w.count + n)
  {
    var all := calls + Burst(n, peer, at);
    if n == 0 {
      assert all == calls;
    } else {
      var shorter := calls + Burst(n - 1, peer, at);
      assert all == shorter + [Call(peer, at)];
      AppendCall(shorter, Call(peer, at), peer, limit, a, b);
      BurstAdmitted(calls, n - 1, peer, at, limit, a, b);
      CallAdmitted(RunCalls(shorter, limit), peer, limit, at);
    }
  }

  lemma CallAdmitted(rates: Rates, peer: string, limit: int, at: Time)
    requires limit > 0 && peer != "" && at > ZERO_TIME
    ensures var w := Window(rates, peer, at);
            Window(CountCall(rates, peer, limit, at), peer, at) == w.(count := w.count + 1)
  {}

  lemma CountedIsStored(rates: Rates, peer: string, at: Time)
    requires Window(rates, peer, at).count > 0
    ensures peer in rates && rates[peer] == Window(rates, peer, at)
  {}

  /** The instant `m` minutes after `at`. */
  function MinutesAfter(at: Time, m: nat): Time {
    if m == 0 then at else MinutesAfter(at, m - 1) + MINUTE
  }

  lemma {:induction false} MinutesAdd(at: Time, m: nat)
    ensures MinutesAfter(at, m) == at + m * MINUTE
  {
    if m > 0 {
      MinutesAdd(at, m - 1);
    }
  }

  /** A burst of the whole limit at `at` and at each of the next `m` minutes. */
  function Bursts(limit: nat, peer: string, at: Time, m: nat): (calls: seq<Call>)
    ensures limit > 0 ==> calls != []
  {
    if m == 0 then Burst(limit, peer, at)
    else Bursts(limit, peer, at, m - 1) + Burst(limit, peer, MinutesAfter(at, m))
  }

  lemma {:induction false} BurstsCount(limit: nat, peer: string, at: Time, m: nat)
    ensures |Bursts(limit, peer, at, m)| == limit * (m + 1)
  {
    if m > 0 {
      BurstsCount(limit, peer, at, m - 1);
      OneMore(limit, m);
    }
  }

  /** The calls keep to the clock, past zero time and up to `last`. */
  ghost predicate OrderedUpTo(calls: seq<Call>, last: Time) {
    ClockOrdered(calls) && forall c :: c in calls ==> c.at <= last
  }

  lemma BurstOrdered(calls: seq<Call>, n: nat, peer: string, at: Time)
    requires at > ZERO_TIME && OrderedUpTo(calls, at)
    ensures OrderedUpTo(calls + Burst(n, peer, at), at)
  {
    var all := calls + Burst(n, peer, at);
    forall i, j | 0 <= i < j < |all| ensures all[i].at <= all[j].at {
      assert i < |calls| ==> all[i] in calls;
    }
  }

  lemma OrderedLater(calls: seq<Call>, last: Time, later: Time)
    requires OrderedUpTo(calls, last) && last <= later
    ensures OrderedUpTo(calls, later)
  {}

  /** The peer may start a new window at `at`, after `calls`. */
  ghost predicate Ready(calls: seq<Call>, limit: int, peer: string, at: Time) {
    OrderedUpTo(calls, at) && Window(RunCalls(calls, limit), peer, at) == PeerRate(at, 0)
  }

  /** Then a burst of the whole limit gets through, and a minute later the peer is ready again. */
  lemma BurstOfLimit(calls: seq<Call>, limit: nat, peer: string, at: Time, a: int, b: int)
    requires limit > 0 && peer != "" && at > ZERO_TIME && a <= at < b && Ready(calls, limit, peer, at)
    ensures var all := calls + Burst(limit, peer, at);
            && Admitted(all, peer, limit, a, b) == Admitted(calls, peer, limit, a, b) + limit
            && ClockOrdered(all) && Ready(all, limit, peer, at + MINUTE)
  {
    var all := calls + Burst(limit, peer, at);
    BurstAdmitted(calls, limit, peer, at, limit, a, b);
    BurstOrdered(calls, limit, peer, at);
    CountedIsStored(RunCalls(all, limit), peer, at);
    OrderedLater(all, at, at + MINUTE);
  }

  lemma OneMore(limit: nat, m: nat)
    ensures limit * (m + 1) == limit * m + limit
  {}

  lemma BurstsSplit(calls: seq<Call>, limit: nat, peer: string, at: Time, m: nat)
    requires m > 0
    ensures calls + Bursts(limit, peer, at, m)
            == calls + Bursts(limit, peer, at, m - 1) + Burst(limit, peer, MinutesAfter(at, m))
    ensures |Bursts(limit, peer, at, m)| == |Bursts(limit, peer, at, m - 1)| + limit
  {}

  /** All of them get through if the peer is ready for the first. */
  lemma {:induction false} BurstsAdmitted(calls: seq<Call>, limit: nat, peer: string, at: Time, m: nat, a: int, b: int)
    requires limit > 0 && peer != "" && at > ZERO_TIME && a <= at && MinutesAfter(at, m) < b
    requires Ready(calls, limit, peer, at)
    ensures var all, last := calls + Bursts(limit, peer, at, m), MinutesAfter(at, m);
            && Admitted(all, peer, limit, a, b) == Admitted(calls, peer, limit, a, b) + |Bursts(limit, peer, at, m)|
            && ClockOrdered(all) && last >= at && Ready(all, limit, peer, last + MINUTE)
  {
    if m == 0 {
      BurstOfLimit(calls, limit, peer, at, a, b);
    } else {
      BurstsAdmitted(calls, limit, peer, at, m - 1, a, b);
      BurstOfLimit(calls + Bursts(limit, peer, at, m - 1), limit, peer, MinutesAfter(at, m), a, b);
      BurstsSplit(calls, limit, peer, at, m);
    }
  }

  /** A schedule for the interval of `d` nanoseconds that starts at the first minute. If windows just fit,
      a burst of the limit at its start and every minute; otherwise one call just under a minute earlier,
      the rest of that window at the start, and the bursts from the next nanosecond on. */
  function Busiest(limit: nat, peer: string, d: nat): seq<Call>
    requires limit > 0 && d > 0
  {
    BusiestParts(limit, peer, (d - 1) / MINUTE, (d - 1) % MINUTE)
  }

  function BusiestParts(limit: nat, peer: string, minutes: nat, rest: nat): seq<Call>
    requires limit > 0
  {
    if rest == 0 then [] + Bursts(limit, peer, MINUTE, minutes)
    else Opening(limit, peer) + Bursts(limit, peer, MINUTE + 1, minutes)
  }

  function Opening(limit: nat, peer: string): seq<Call>
    requires limit > 0
  {
    [] + Burst(1, peer, 1) + Burst(limit - 1, peer, MINUTE)
  }

  lemma OpeningAdmitted(limit: nat, peer: string, b: int)
    requires limit > 0 && peer != "" && b > MINUTE
    ensures var calls := Opening(limit, peer);
            && OrderedUpTo(calls, MINUTE + 1)
            && Admitted(calls, peer, limit, MINUTE, b) == limit - 1
            && Window(RunCalls(calls, limit), peer, MINUTE + 1) == PeerRate(MINUTE + 1, 0)
  {
    var first := [] + Burst(1, peer, 1);
    BurstAdmitted([], 1, peer, 1, limit, MINUTE, b);
    BurstOrdered([], 1, peer, 1);
    CountedIsStored(RunCalls(first, limit), peer, 1);
    BurstAdmitted(first, limit - 1, peer, MINUTE, limit, MINUTE, b);
    BurstOrdered(first, limit - 1, peer, MINUTE);
    CountedIsStored(RunCalls(Opening(limit, peer), limit), peer, MINUTE);
  }

  lemma BusyWhenFitting(peer: string, limit: nat, m: nat)
    requires limit > 0 && peer != ""
    ensures var calls := [] + Bursts(limit, peer, MINUTE, m);
            && ClockOrdered(calls)
            && Admitted(calls, peer, limit, MINUTE, MINUTE + m * MINUTE + 1) == limit * (m + 1)
  {
    MinutesAdd(MINUTE, m);
    BurstsCount(limit, peer, MINUTE, m);
    BurstsAdmitted([], limit, peer, MINUTE, m, MINUTE, MINUTE + m * MINUTE + 1);
  }

  lemma OpeningThenBursts(peer: string, limit: nat, m: nat, b: int)
    requires limit > 0 && peer != "" && MinutesAfter(MINUTE + 1, m) < b
    ensures var calls := Opening(limit, peer) + Bursts(limit, peer, MINUTE + 1, m);
            && ClockOrdered(calls)
            && Admitted(calls, peer, limit, MINUTE, b) == limit - 1 + |Bursts(limit, peer, MINUTE + 1, m)|
  {
    MinutesAdd(MINUTE + 1, m);
    OpeningAdmitted(limit, peer, b);
    BurstsAdmitted(Opening(limit, peer), limit, peer, MINUTE + 1, m, MINUTE, b);
  }

  lemma BusyWithRest(peer: string, limit: nat, m: nat, r: nat)
    requires limit > 0 && peer != "" && r > 0
    ensures var calls := Opening(limit, peer) + Bursts(limit, peer, MINUTE + 1, m);
            && ClockOrdered(calls)
            && Admitted(calls, peer, limit, MINUTE, MINUTE + m * MINUTE + r + 1) == limit - 1 + limit * (m + 1)
  {
    MinutesAdd(MINUTE + 1, m);
    BurstsCount(limit, peer, MINUTE + 1, m);
    OpeningThenBursts(peer, limit, m, MINUTE + m * MINUTE + r + 1);
  }

  lemma ReachedInParts(peer: string, limit: nat, m: nat, r: nat)
    requires limit > 0 && peer != ""
    ensures var calls := BusiestParts(limit, peer, m, r);
            && ClockOrdered(calls)
            && Admitted(calls, peer, limit, MINUTE, MINUTE + m * MINUTE + r + 1) == MostInParts(m, r, limit)
  {
    if r == 0 {
      BusyWhenFitting(peer, limit, m);
    } else {
      BusyWithRest(peer, limit, m, r);
    }
  }

  lemma WholeMinutes(x: nat)
    ensures x == x / MINUTE * MINUTE + x % MINUTE
  {}

  /** The bound is reached, for every limit and every length of interval. */
  lemma BoundReached(peer: string, limit: nat, d: nat)
    requires limit > 0 && peer != "" && d > 0
    ensures ClockOrdered(Busiest(limit, peer, d))
    ensures Admitted(Busiest(limit, peer, d), peer, limit, MINUTE, MINUTE + d) == MostIn(d, limit)
  {
    var m, r := (d - 1) / MINUTE, (d - 1) % MINUTE;
    WholeMinutes(d - 1);
    assert MINUTE + d == MINUTE + m * MINUTE + r + 1;
    ReachedInParts(peer, limit, m, r);
  }

  // ---------------------------------------------------------------- modest peers

  lemma {:induction false} SentGrows(calls: seq<Call>, n: nat, peer: string, a: int, b: int)
    requires n <= |calls|
    ensures Sent(calls[..n], peer, a, b) <= Sent(calls, peer, a, b)
    decreases |calls|
  {
    if n < |calls| {
      var front := calls[..|calls| - 1];
      assert front[..n] == calls[..n];
      SentGrows(front, n, peer, a, b);
    } else {
      assert calls[..n] == calls;
    }
  }

  lemma {:induction false} WindowCountsSent(calls: seq<Call>, peer: string, limit: int)
    requires ClockOrdered(calls) && limit > 0 && peer != ""
    ensures peer in RunCalls(calls, limit) ==>
              var w := RunCalls(calls, limit)[peer];
              && calls != [] && ZERO_TIME < w.windowStart <= calls[|calls| - 1].at
              && w.count <= Sent(calls, peer, w.windowStart, w.windowStart + MINUTE)
  {
    if calls != [] {
      var front, last := calls[..|calls| - 1], calls[|calls| - 1];
      assert calls == front + [last];
      WindowCountsSent(front, peer, limit);
      if last.peer != peer {
        OtherPeer(RunCalls(front, limit), peer, last.peer, limit, last.at);
      }
    }
  }

  /** A peer that never sends more than the limit in a minute is never refused. */
  lemma ModestPeerNeverRefused(calls: seq<Call>, peer: string, limit: int, i: nat)
    requires ClockOrdered(calls) && limit > 0 && peer != ""
    requires forall a: int :: SentInMinute(calls, peer, a) <= limit
    requires i < |calls| && calls[i].peer == peer
    ensures Allows(RunCalls(calls[..i], limit), peer, limit, calls[i].at)
  {
    var upTo := calls[..i + 1];
    assert upTo == calls[..i] + [calls[i]];
    AppendCall(calls[..i], calls[i], peer, limit, 0, 0);
    WindowCountsSent(upTo, peer, limit);
    var w := RunCalls(upTo, limit)[peer];
    SentGrows(calls, i + 1, peer, w.windowStart, w.windowStart + MINUTE);
    assert SentInMinute(calls, peer, w.windowStart) <= limit;
  }
}
