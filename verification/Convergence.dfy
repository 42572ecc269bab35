/** What a task record becomes under reordered, repeated deliveries: its closed form, and exactly
    when every delivery order agrees. */
module Convergence {
  import opened Basics
  import opened Envelopes
  import opened Registers

  // ---------------------------------------------------------------- closed form

  /** Every event is an unexpired delivery to record `k`. */
  ghost predicate Deliveries(evs: seq<Event>, k: string) {
    forall i :: 0 <= i < |evs| ==> Hits(evs[i], k) && evs[i].at <= evs[i].env.expiresAt
  }

  function SeqOf(ev: Event): uint64 {
    if ev.Deliver? then ev.env.seqNo else 0
  }

  predicate Ends(ev: Event) {
    ev.Deliver? && TerminalOp(ev.env.op)
  }

  /** Delivery `i` carries a sequence number above all those before it. */
  ghost predicate Record(evs: seq<Event>, i: int)
    requires 0 <= i < |evs|
  {
    forall j :: 0 <= j < i ==> SeqOf(evs[j]) < SeqOf(evs[i])
  }

  ghost predicate NoTerminalRecord(evs: seq<Event>, n: nat)
    requires n <= |evs|
  {
    forall j :: 0 <= j < n && Record(evs, j) ==> !Ends(evs[j])
  }

  ghost predicate Largest(evs: seq<Event>, i: int, n: nat)
    requires 0 <= i < |evs| && n <= |evs|
  {
    forall j :: 0 <= j < n ==> SeqOf(evs[j]) <= SeqOf(evs[i])
  }

  /** The first terminal record of the list or, when no record is terminal, the first delivery with
      the largest sequence number. */
  ghost predicate Winner(evs: seq<Event>, i: int) {
    && 0 <= i < |evs| && Record(evs, i)
    && if Ends(evs[i]) then NoTerminalRecord(evs, i)
       else NoTerminalRecord(evs, |evs|) && Largest(evs, i, |evs|)
  }

  /** Unexpired deliveries to a fresh record leave exactly the winner, wherever the list is cut. */
  lemma {:induction false} TaskFoldClosedForm(m: Tasks, evs: seq<Event>, k: string) returns (w: nat)
    requires k !in m && Deliveries(evs, k) && evs != []
    ensures Winner(evs, w)
    ensures forall i :: Winner(evs, i) <==> i == w
    ensures Lookup(RunTasks(m, evs), k) == Some(TaskRecord(evs[w].env, evs[w].at))
  {
    var n := |evs| - 1;
    var front, last := evs[..n], evs[n];
    if front == [] {
      assert RunTasks(m, front) == m;
      w := 0;
    } else {
      var v := TaskFoldClosedForm(m, front, k);
      WinnerExtends(evs, v);
      assert RunTasks(m, evs) == ApplyTask(RunTasks(m, front), last.env, last.at);
      w := if Ends(evs[v]) || SeqOf(last) <= SeqOf(evs[v]) then v else n;
    }
    WinnerUnique(evs, w);
  }

  lemma RecordOfPrefix(evs: seq<Event>, n: nat, j: nat)
    requires j < n <= |evs|
    ensures Record(evs[..n], j) <==> Record(evs, j)
  {}

  lemma PrefixFacts(evs: seq<Event>, n: nat, v: nat, m: nat)
    requires v < n <= |evs| && m <= n
    ensures NoTerminalRecord(evs[..n], m) ==> NoTerminalRecord(evs, m)
    ensures Largest(evs[..n], v, m) ==> Largest(evs, v, m)
  {
    forall j | 0 <= j < m
      ensures evs[..n][j] == evs[j] && (Record(evs[..n], j) <==> Record(evs, j))
    {
      RecordOfPrefix(evs, n, j);
    }
  }

  /** One more delivery replaces the winner only if it is larger and the winner is not terminal. */
  lemma WinnerExtends(evs: seq<Event>, v: int)
    requires evs != [] && Winner(evs[..|evs| - 1], v)
    ensures 0 <= v < |evs| - 1
    ensures Winner(evs, if Ends(evs[v]) || SeqOf(evs[|evs| - 1]) <= SeqOf(evs[v]) then v else |evs| - 1)
  {
    var n := |evs| - 1;
    RecordOfPrefix(evs, n, v);
    if Ends(evs[v]) {
      PrefixFacts(evs, n, v, v);
    } else {
      PrefixFacts(evs, n, v, n);
      OneMore(evs, v);
    }
  }

  lemma OneMore(evs: seq<Event>, v: nat)
    requires v < |evs| - 1 && Record(evs, v) && !Ends(evs[v])
    requires NoTerminalRecord(evs, |evs| - 1) && Largest(evs, v, |evs| - 1)
    ensures Winner(evs, if SeqOf(evs[|evs| - 1]) <= SeqOf(evs[v]) then v else |evs| - 1)
  {
    var n := |evs| - 1;
    if SeqOf(evs[n]) <= SeqOf(evs[v]) {
      assert !Record(evs, n);
    }
  }

  lemma WinnerUnique(evs: seq<Event>, w: nat)
    requires Winner(evs, w)
    ensures forall i :: Winner(evs, i) <==> i == w
  {}

  // ---------------------------------------------------------------- convergence

  /** A set of envelopes of one task, each with a sequence number of its own. */
  ghost predicate OneTask(S: set<Envelope>, k: string) {
    && (forall e :: e in S ==> e.kind.KindTask? && TaskKey(e) == k)
    && (forall e, f :: e in S && f in S && e.seqNo == f.seqNo ==> e == f)
  }

  /** Any run that delivers to `k` all of `S`, unexpired, and nothing else; deliveries may repeat and
      come in any order, and collections and traffic for other records may come in between. */
  ghost predicate Schedule(S: set<Envelope>, k: string, evs: seq<Event>) {
    && (forall ev :: ev in evs && Hits(ev, k) ==> ev.env in S && ev.at <= ev.env.expiresAt)
    && (forall e :: e in S ==> exists ev :: ev in evs && Hits(ev, k) && ev.env == e)
  }

  /** Equal apart from the local receipt time, an expiry mark standing for any status. */
  ghost predicate SameRecord(a: Option<TaskState>, b: Option<TaskState>) {
    match (a, b)
    case (None, None) => true
    case (Some(x), Some(y)) =>
      && x.(status := EXPIRED, updatedAt := 0) == y.(status := EXPIRED, updatedAt := 0)
      && (x.status == y.status || x.status.EXPIRED? || y.status.EXPIRED?)
    case _ => false
  }

  ghost predicate Converges(S: set<Envelope>, k: string, m: Tasks) {
    forall evs, evs' :: Schedule(S, k, evs) && Schedule(S, k, evs') ==>
      SameRecord(Lookup(RunTasks(m, evs), k), Lookup(RunTasks(m, evs'), k))
  }

  /** No COMPLETE or WITHDRAW is followed by a larger sequence number. */
  ghost predicate TerminalOnlyNewest(S: set<Envelope>) {
    forall e, f :: e in S && f in S && TerminalOp(e.op) ==> f.seqNo <= e.seqNo
  }

  /** `t` is the record of the newest envelope delivered to `k` so far. */
  ghost predicate HoldsNewest(t: TaskState, k: string, evs: seq<Event>) {
    && TaskMatches(t, k)
    && (exists ev :: ev in evs && Hits(ev, k) && ev.env == t.envelope)
    && (forall ev :: ev in evs && Hits(ev, k) ==> ev.env.seqNo <= t.lastSeq)
    && ((forall ev :: ev in evs && ev.Collect? ==> ev.at <= t.expiresAt) ==> t.status == StatusOf(t.envelope.op))
  }

  lemma {:induction false} RunHoldsNewest(S: set<Envelope>, k: string, m: Tasks, evs: seq<Event>)
    requires OneTask(S, k) && TerminalOnlyNewest(S) && k !in m
    requires forall ev :: ev in evs && Hits(ev, k) ==> ev.env in S && ev.at <= ev.env.expiresAt
    ensures match Lookup(RunTasks(m, evs), k)
            case None => forall ev :: ev in evs ==> !Hits(ev, k)
            case Some(t) => HoldsNewest(t, k, evs)
  {
    if evs != [] {
      var front, last := evs[..|evs| - 1], evs[|evs| - 1];
      assert evs == front + [last];
      RunHoldsNewest(S, k, m, front);
      var before, after := Lookup(RunTasks(m, front), k), Lookup(RunTasks(m, evs), k);
      assert forall ev :: ev in evs <==> ev in front || ev == last;
      if before.Some? {
        assert before.value.envelope in S;
      }
      if Hits(last, k) {
        assert last.env in S;
        assert before.Some? ==> after.Some?;
        if before.Some? && after == before {
          assert last.env.seqNo <= before.value.lastSeq;
        } else {
          assert after == Some(TaskRecord(last.env, last.at));
          assert last in evs;
        }
      } else if last.Collect? && before.Some? {
        assert after == Some(ExpireTask(before.value, last.at));
        assert last in evs;
      } else {
        assert after == before;
      }
    }
  }

  /** When only the newest may be terminal, every schedule ends with the newest envelope; its status
      is its own unless a collection later than its expiry marked it. */
  lemma NewestWins(S: set<Envelope>, k: string, m: Tasks, evs: seq<Event>, newest: Envelope)
    requires OneTask(S, k) && TerminalOnlyNewest(S) && k !in m && Schedule(S, k, evs)
    requires newest in S && forall e :: e in S ==> e.seqNo <= newest.seqNo
    ensures k in RunTasks(m, evs)
    ensures var t := RunTasks(m, evs)[k];
            && TaskMatches(t, k) && t.envelope == newest
            && ((forall ev :: ev in evs && ev.Collect? ==> ev.at <= newest.expiresAt) ==>
                  t.status == StatusOf(newest.op))
  {
    RunHoldsNewest(S, k, m, evs);
    var ev :| ev in evs && Hits(ev, k) && ev.env == newest;
    var t := RunTasks(m, evs)[k];
    assert t.envelope in S && newest.seqNo <= t.lastSeq;
  }

  lemma {:induction false} RunConcat(m: Tasks, a: seq<Event>, b: seq<Event>)
    ensures RunTasks(m, a + b) == RunTasks(RunTasks(m, a), b)
  {
    if b == [] {
      assert a + b == a;
    } else {
      var c := a + b;
      assert c[..|c| - 1] == a + b[..|b| - 1] && c[|c| - 1] == b[|b| - 1];
      RunConcat(m, a, b[..|b| - 1]);
    }
  }

  lemma {:induction false} RecordStays(m: Tasks, k: string, evs: seq<Event>)
    requires k in m && forall ev :: ev in evs ==> !ev.Collect?
    requires TerminalStatus(m[k].status) || forall ev :: ev in evs && Hits(ev, k) ==> ev.env.seqNo <= m[k].lastSeq
    ensures Lookup(RunTasks(m, evs), k) == Some(m[k])
  {
    if evs != [] {
      var front, last := evs[..|evs| - 1], evs[|evs| - 1];
      assert evs == front + [last];
      RecordStays(m, k, front);
    }
  }

  lemma {:induction false} DeliverAll(S: set<Envelope>) returns (evs: seq<Event>)
    ensures forall ev :: ev in evs ==> ev.Deliver? && ev.env in S && ev.at == 0
    ensures forall e :: e in S ==> Deliver(e, 0) in evs
  {
    if S == {} {
      evs := [];
    } else {
      var e :| e in S;
      var rest := DeliverAll(S - {e});
      evs := [Deliver(e, 0)] + rest;
    }
  }

  /** Deliver `first`, then all of `S`: the record stays at `first` if it is terminal or newest. */
  lemma FirstWins(S: set<Envelope>, k: string, m: Tasks, first: Envelope) returns (evs: seq<Event>)
    requires OneTask(S, k) && k !in m && first in S
    requires TerminalOp(first.op) || forall e :: e in S ==> e.seqNo <= first.seqNo
    ensures Schedule(S, k, evs)
    ensures Lookup(RunTasks(m, evs), k) == Some(TaskRecord(first, 0))
  {
    var all := DeliverAll(S);
    var head := [Deliver(first, 0)];
    evs := head + all;
    forall e | e in S ensures exists ev :: ev in evs && Hits(ev, k) && ev.env == e {
      assert Deliver(e, 0) in evs && Hits(Deliver(e, 0), k);
    }
    RunConcat(m, head, all);
    assert RunTasks(m, head[..0]) == m;
    assert RunTasks(m, head) == m[k := TaskRecord(first, 0)];
    RecordStays(RunTasks(m, head), k, all);
  }

  lemma {:induction false} NewestExists(S: set<Envelope>) returns (newest: Envelope)
    requires S != {}
    ensures newest in S && forall e :: e in S ==> e.seqNo <= newest.seqNo
  {
    var e :| e in S;
    newest := e;
    if S != {e} {
      var other := NewestExists(S - {e});
      newest := if e.seqNo < other.seqNo then other else e;
    }
  }

  /** Delivery order does not matter exactly when no terminal envelope is below the newest. */
  lemma ConvergenceExact(S: set<Envelope>, k: string, m: Tasks)
    requires OneTask(S, k) && k !in m
    ensures Converges(S, k, m) <==> TerminalOnlyNewest(S)
  {
    if S != {} {
      var newest := NewestExists(S);
      if TerminalOnlyNewest(S) {
        forall evs, evs' | Schedule(S, k, evs) && Schedule(S, k, evs')
          ensures SameRecord(Lookup(RunTasks(m, evs), k), Lookup(RunTasks(m, evs'), k))
        {
          NewestWins(S, k, m, evs, newest);
          NewestWins(S, k, m, evs', newest);
        }
      } else {
        var stuck, above :| stuck in S && above in S && TerminalOp(stuck.op) && stuck.seqNo < above.seqNo;
        var evs := FirstWins(S, k, m, newest);
        var evs' := FirstWins(S, k, m, stuck);
        assert !SameRecord(Lookup(RunTasks(m, evs), k), Lookup(RunTasks(m, evs'), k));
      }
    } else {
      forall evs, evs' | Schedule(S, k, evs) && Schedule(S, k, evs')
        ensures SameRecord(Lookup(RunTasks(m, evs), k), Lookup(RunTasks(m, evs'), k))
      {
        RunHoldsNewest(S, k, m, evs);
        RunHoldsNewest(S, k, m, evs');
      }
    }
  }
}
