/** What the rate limit means for the envelopes that a node admits. */
module Admission {
  import opened Basics
  import opened Envelopes
  import opened Registers
  import opened Nodes
  import opened RateLimit

  /** One inbound envelope: when the policy looks at it, and when it is applied. */
  datatype Arrival = Arrival(env: Envelope, context: Context, at: Time, applyAt: Time)

  /** The node, its peer ID and its policy stay; what the envelopes change is the member. */
  function RunArrivals(p: Policy, self: string, arrivals: seq<Arrival>): Member {
    if arrivals == [] then Member(map[], map[], map[])
    else
      var x := arrivals[|arrivals| - 1];
      Handle(p, self, RunArrivals(p, self, arrivals[..|arrivals| - 1]), x.env, x.context, true, x.at, x.applyAt)
  }

  function RefusalOf(p: Policy, self: string, m: Member, x: Arrival): Option<Refusal> {
    PolicyRefusal(p, self, x.env, x.context, true, m.rates, x.at)
  }

  predicate From(x: Arrival, publisher: string, a: int, b: int) {
    x.env.publisher == publisher && a <= x.at < b
  }

  /** How many envelopes of the publisher arrive in the half-open interval. */
  function Arriving(arrivals: seq<Arrival>, publisher: string, a: int, b: int): nat {
    if arrivals == [] then 0
    else
      Arriving(arrivals[..|arrivals| - 1], publisher, a, b)
      + if From(arrivals[|arrivals| - 1], publisher, a, b) then 1 else 0
  }

  function ArrivingInMinute(arrivals: seq<Arrival>, publisher: string, a: int): nat {
    Arriving(arrivals, publisher, a, a + MINUTE)
  }

  /** How many of them the node admits. */
  function AdmittedFrom(p: Policy, self: string, arrivals: seq<Arrival>, publisher: string, a: int, b: int): nat {
    if arrivals == [] then 0
    else
      var front, x := arrivals[..|arrivals| - 1], arrivals[|arrivals| - 1];
      AdmittedFrom(p, self, front, publisher, a, b)
      + if From(x, publisher, a, b) && RefusalOf(p, self, RunArrivals(p, self, front), x).None? then 1 else 0
  }

  ghost predicate Ordered(arrivals: seq<Arrival>) {
    && (forall x :: x in arrivals ==> x.at > ZERO_TIME)
    && (forall i, j :: 0 <= i < j < |arrivals| ==> arrivals[i].at <= arrivals[j].at)
  }

  predicate Counted(p: Policy, self: string, x: Arrival) {
    Metered(p, self, x.env, x.context, true)
  }

  /** The calls that the limiter gets to see. */
  function CallsOf(p: Policy, self: string, arrivals: seq<Arrival>): seq<Call> {
    if arrivals == [] then []
    else
      var x := arrivals[|arrivals| - 1];
      CallsOf(p, self, arrivals[..|arrivals| - 1]) + if Counted(p, self, x) then [Call(x.env.publisher, x.at)] else []
  }

  lemma {:induction false} CallsInTime(p: Policy, self: string, arrivals: seq<Arrival>, last: Time)
    requires Ordered(arrivals) && forall x :: x in arrivals ==> x.at <= last
    ensures OrderedUpTo(CallsOf(p, self, arrivals), last)
  {
    if arrivals != [] {
      var front, x := arrivals[..|arrivals| - 1], arrivals[|arrivals| - 1];
      assert arrivals == front + [x];
      CallsInTime(p, self, front, x.at);
      OrderedMore(CallsOf(p, self, front), Call(x.env.publisher, x.at));
      OrderedLater(CallsOf(p, self, arrivals), x.at, last);
    }
  }

  lemma OrderedMore(calls: seq<Call>, c: Call)
    requires OrderedUpTo(calls, c.at) && c.at > ZERO_TIME
    ensures OrderedUpTo(calls + [c], c.at)
  {
    var all := calls + [c];
    forall i, j | 0 <= i < j < |all| ensures all[i].at <= all[j].at {
      assert i < |calls| ==> all[i] in calls;
    }
  }

  /** The limiter at work on one envelope. */
  lemma ArrivalMetered(p: Policy, self: string, m: Member, x: Arrival)
    ensures Handle(p, self, m, x.env, x.context, true, x.at, x.applyAt).rates
            == if Counted(p, self, x) then CountCall(m.rates, x.env.publisher, p.rateLimit, x.at) else m.rates
    ensures x.env.publisher != self ==>
              (RefusalOf(p, self, m, x).None?
               <==> Counted(p, self, x) && Allows(m.rates, x.env.publisher, p.rateLimit, x.at))
  {}

  /** The node's counters are the limiter's after those calls. */
  lemma {:induction false} RatesOfRun(p: Policy, self: string, arrivals: seq<Arrival>)
    ensures RunArrivals(p, self, arrivals).rates == RunCalls(CallsOf(p, self, arrivals), p.rateLimit)
  {
    if arrivals != [] {
      var front, x := arrivals[..|arrivals| - 1], arrivals[|arrivals| - 1];
      RatesOfRun(p, self, front);
      ArrivalMetered(p, self, RunArrivals(p, self, front), x);
      AppendCall(CallsOf(p, self, front), Call(x.env.publisher, x.at), "", p.rateLimit, 0, 0);
      assert CallsOf(p, self, front) + [] == CallsOf(p, self, front);
    }
  }

  function OneIf(b: bool): nat {
    if b then 1 else 0
  }

  lemma AdmittedAppend(p: Policy, self: string, front: seq<Arrival>, x: Arrival, publisher: string, a: int, b: int)
    requires publisher != self
    ensures var m := RunArrivals(p, self, front);
            AdmittedFrom(p, self, front + [x], publisher, a, b)
            == AdmittedFrom(p, self, front, publisher, a, b)
               + OneIf(From(x, publisher, a, b) && Counted(p, self, x) && Allows(m.rates, publisher, p.rateLimit, x.at))
  {
    assert (front + [x])[..|front|] == front;
    ArrivalMetered(p, self, RunArrivals(p, self, front), x);
  }

  lemma CallsAppend(p: Policy, self: string, front: seq<Arrival>, x: Arrival, publisher: string, limit: int,
                    a: int, b: int)
    ensures var calls := CallsOf(p, self, front);
            Admitted(CallsOf(p, self, front + [x]), publisher, limit, a, b)
            == Admitted(calls, publisher, limit, a, b)
               + OneIf(From(x, publisher, a, b) && Counted(p, self, x)
                       && Allows(RunCalls(calls, limit), publisher, limit, x.at))
  {
    var calls, c := CallsOf(p, self, front), Call(x.env.publisher, x.at);
    assert (front + [x])[..|front|] == front && calls + [] == calls;
    AppendCall(calls, c, publisher, limit, a, b);
  }

  /** Of a foreign publisher the node admits exactly what the limiter allows. */
  lemma {:induction false} AdmittedByLimiter(p: Policy, self: string, arrivals: seq<Arrival>, publisher: string,
                                             a: int, b: int)
    requires publisher != self
    ensures AdmittedFrom(p, self, arrivals, publisher, a, b)
            == Admitted(CallsOf(p, self, arrivals), publisher, p.rateLimit, a, b)
  {
    if arrivals != [] {
      var front, x := arrivals[..|arrivals| - 1], arrivals[|arrivals| - 1];
      assert arrivals == front + [x];
      AdmittedByLimiter(p, self, front, publisher, a, b);
      RatesOfRun(p, self, front);
      AdmittedAppend(p, self, front, x, publisher, a, b);
      CallsAppend(p, self, front, x, publisher, p.rateLimit, a, b);
    }
  }

  lemma {:induction false} SentArrived(p: Policy, self: string, arrivals: seq<Arrival>, publisher: string,
                                       a: int, b: int)
    ensures Sent(CallsOf(p, self, arrivals), publisher, a, b) <= Arriving(arrivals, publisher, a, b)
  {
    if arrivals != [] {
      var front, x := arrivals[..|arrivals| - 1], arrivals[|arrivals| - 1];
      SentArrived(p, self, front, publisher, a, b);
      var calls, c := CallsOf(p, self, front), Call(x.env.publisher, x.at);
      assert (calls + [c])[..|calls|] == calls && calls + [] == calls;
    }
  }

  /** In every half-open interval of `d` nanoseconds a node admits at most `MostIn` envelopes of one foreign
      publisher; less than twice the limit in a minute. */
  lemma AdmittedEnvelopesAtMost(p: Policy, self: string, arrivals: seq<Arrival>, publisher: string, a: int, d: nat)
    requires p.rateLimit > 0 && publisher != self && publisher != "" && d > 0 && Ordered(arrivals)
    ensures AdmittedFrom(p, self, arrivals, publisher, a, a + d) <= MostIn(d, p.rateLimit)
    ensures d == 60_000_000_000 ==> AdmittedFrom(p, self, arrivals, publisher, a, a + d) <= 2 * p.rateLimit - 1
  {
    AdmittedByLimiter(p, self, arrivals, publisher, a, a + d);
    CallsInTime(p, self, arrivals, if arrivals == [] then 0 else arrivals[|arrivals| - 1].at);
    AdmittedAtMost(CallsOf(p, self, arrivals), publisher, p.rateLimit, a, d);
  }

  /** A publisher that sends no more than the limit in any minute is never refused for its rate. */
  lemma ModestPublisherNeverRefused(p: Policy, self: string, arrivals: seq<Arrival>, x: Arrival)
    requires p.rateLimit > 0 && Ordered(arrivals + [x])
    requires forall a: int :: ArrivingInMinute(arrivals + [x], x.env.publisher, a) <= p.rateLimit
    ensures RefusalOf(p, self, RunArrivals(p, self, arrivals), x) != Some(RateExceeded)
  {
    var publisher, all := x.env.publisher, arrivals + [x];
    if Counted(p, self, x) && publisher != "" {
      var calls, c := CallsOf(p, self, arrivals), Call(publisher, x.at);
      assert all[..|arrivals|] == arrivals && CallsOf(p, self, all) == calls + [c];
      RatesOfRun(p, self, arrivals);
      forall a: int ensures SentInMinute(calls + [c], publisher, a) <= p.rateLimit {
        SentArrived(p, self, all, publisher, a, a + MINUTE);
        assert ArrivingInMinute(all, publisher, a) <= p.rateLimit;
      }
      assert forall y :: y in all ==> y.at <= x.at;
      CallsInTime(p, self, all, x.at);
      ModestPeerNeverRefused(calls + [c], publisher, p.rateLimit, |calls|);
      assert (calls + [c])[..|calls|] == calls;
    }
  }
}
