/** The layout shared by the two benchmark scripts: seeds, start order, shards, ports and rounds. */
module Bench {
  import opened Basics

  const SHARD_SIZE: nat := 20
  const SEEDS_PER_SHARD: nat := 4

  /** The totals that the cluster script accepts. */
  predicate ValidTotal(total: nat) {
    total >= SHARD_SIZE && total % SHARD_SIZE == 0
  }

  function Shards(total: nat): nat {
    total / SHARD_SIZE
  }

  /** The number of seeds the script aims for. */
  function SeedTarget(total: nat): nat {
    var seeds := if total < 16 then total else 16;
    var required := Shards(total) * SEEDS_PER_SHARD;
    if seeds < required && required <= total then required else seeds
  }

  /** The number it ends up with: the second pair of loops appends before it looks at the count. */
  function SeedCount(total: nat): nat {
    if Shards(total) < 4 then 16 else SEEDS_PER_SHARD * Shards(total) + 1
  }

  function BatchSize(total: nat): (r: nat)
    ensures r > 0
  {
    if total <= 100 then 20 else if total <= 200 then 25 else 30
  }

  /** The shard of a node, counted from 1. */
  function ShardOf(node: nat): nat
    requires node >= 1
  {
    (node - 1) / SHARD_SIZE + 1
  }

  /** The node of a shard at an offset, both as the script counts them. */
  function NodeIn(shard: nat, offset: nat): (node: nat)
    requires shard >= 1
    ensures node >= 1
  {
    (shard - 1) * SHARD_SIZE + offset + 1
  }

  // ---------------------------------------------------------------- seeds

  /** Seed number `i`: one node of each shard in turn, then the next node of each. */
  function SeedAt(shards: nat, i: nat): (node: nat)
    requires shards > 0
    ensures node >= 1
  {
    i % shards * SHARD_SIZE + i / shards + 1
  }

  function FirstSeeds(shards: nat, n: nat): (s: seq<nat>)
    requires shards > 0
    ensures |s| == n
  {
    seq(n, i requires 0 <= i < n => SeedAt(shards, i))
  }

  lemma SeedPosition(shards: nat, offset: nat, shard: nat)
    requires shard < shards
    ensures SeedAt(shards, offset * shards + shard) == shard * SHARD_SIZE + offset + 1
  {
    DivMod(shards, offset, shard);
  }

  lemma {:induction false} MulGrows(a: int, b: int, d: nat)
    requires a <= b
    ensures a * d <= b * d
    decreases b - a
  {
    if a < b {
      MulGrows(a, b - 1, d);
      assert b * d == (b - 1) * d + d;
    }
  }

  lemma QuotientUnique(d: nat, q: int, r: nat, q': int, r': nat)
    requires r < d && r' < d && q * d + r == q' * d + r'
    ensures q == q' && r == r'
  {
    assert (q + 1) * d == q * d + d && (q' + 1) * d == q' * d + d;
    if q < q' {
      MulGrows(q + 1, q', d);
    } else if q' < q {
      MulGrows(q' + 1, q, d);
    }
  }

  lemma QuotientAndRest(x: nat, d: nat)
    requires d > 0
    ensures x == x / d * d + x % d && x % d < d
  {}

  lemma DivMod(d: nat, q: nat, r: nat)
    requires r < d
    ensures (q * d + r) / d == q && (q * d + r) % d == r
  {
    var x := q * d + r;
    QuotientAndRest(x, d);
    QuotientUnique(d, x / d, x % d, q, r);
  }

  /** The two pairs of nested loops that fill SEED_INDEXES. */
  method SelectSeeds(total: nat) returns (seeds: seq<nat>)
    requires ValidTotal(total)
    ensures seeds == FirstSeeds(Shards(total), SeedCount(total))
  {
    var shards, target := Shards(total), SeedTarget(total);
    assert target == if shards < 4 then 16 else 4 * shards;
    seeds := FillSeeds(total, [], 0, SEEDS_PER_SHARD, target);
    seeds := FillSeeds(total, seeds, SEEDS_PER_SHARD, SHARD_SIZE, target);
  }

  /** One pair of loops: offsets from `first` up to `past`, and for each offset every shard; it stops as
      soon as a node just appended makes the count reach the target. */
  method FillSeeds(total: nat, start: seq<nat>, first: nat, past: nat, target: nat) returns (seeds: seq<nat>)
    requires ValidTotal(total) && first < past <= SHARD_SIZE
    requires start == FirstSeeds(Shards(total), first * Shards(total))
    ensures var full, last := |start|, past * Shards(total);
            var n := if target <= full then full + 1 else if target <= last then target else last;
            seeds == FirstSeeds(Shards(total), n)
  {
    var shards := Shards(total);
    seeds := start;
    ghost var appended := 0;
    Grow(shards, first, past);
    for offset := first to past
      invariant seeds == FirstSeeds(shards, offset * shards)
      invariant |seeds| == |start| + appended
      invariant appended > 0 ==> |seeds| < target
      invariant appended == 0 <==> offset == first
    {
      for shard := 0 to shards
        invariant seeds == FirstSeeds(shards, offset * shards + shard)
        invariant |seeds| == |start| + appended
        invariant appended > 0 ==> |seeds| < target
        invariant appended == 0 <==> offset == first && shard == 0
      {
        var node := shard * SHARD_SIZE + offset + 1;
        if node <= total {
          SeedPosition(shards, offset, shard);
          Grow(shards, offset + 1, past);
          assert offset * shards + shard + 1 <= (offset + 1) * shards;
          seeds := seeds + [node];
          appended := appended + 1;
          assert seeds == FirstSeeds(shards, offset * shards + shard + 1);
          if |seeds| >= target {
            return;
          }
        }
      }
      assert offset * shards + shards == (offset + 1) * shards;
    }
  }

  lemma Grow(d: nat, a: nat, b: nat)
    ensures a <= b ==> a * d <= b * d
    ensures a < b ==> a * d + d <= b * d
  {
    if a <= b {
      MulGrows(a, b, d);
    }
    if a < b {
      MulGrows(a + 1, b, d);
      assert (a + 1) * d == a * d + d;
    }
  }

  ghost predicate Distinct(s: seq<nat>) {
    forall i, j :: 0 <= i < j < |s| ==> s[i] != s[j]
  }

  lemma DistinctConcat(a: seq<nat>, b: seq<nat>)
    requires Distinct(a) && Distinct(b) && forall x :: x in b ==> x !in a
    ensures Distinct(a + b)
  {
    forall i, j | 0 <= i < j < |a + b| ensures (a + b)[i] != (a + b)[j] {
      if i < |a| <= j {
        assert (a + b)[i] in a && (a + b)[j] in b;
      }
    }
  }

  lemma SeedInjective(shards: nat, i: nat, j: nat)
    requires shards > 0 && i / shards < SHARD_SIZE && j / shards < SHARD_SIZE
    requires SeedAt(shards, i) == SeedAt(shards, j)
    ensures i == j
  {
    QuotientUnique(SHARD_SIZE, i % shards, i / shards, j % shards, j / shards);
    QuotientAndRest(i, shards);
    QuotientAndRest(j, shards);
  }

  lemma QuotientBelow(i: nat, d: nat, q: nat)
    requires d > 0 && i < q * d
    ensures i / d < q
  {}

  /** For every valid total the seeds are distinct nodes of the cluster, at least four in each shard,
      and at most one more than aimed for. */
  lemma SeedsWellPlaced(total: nat)
    requires ValidTotal(total)
    ensures var seeds := FirstSeeds(Shards(total), SeedCount(total));
            && Distinct(seeds)
            && (forall i :: 0 <= i < |seeds| ==> 1 <= seeds[i] <= total)
            && SeedTarget(total) <= |seeds| <= SeedTarget(total) + 1
            && (forall shard, offset :: 1 <= shard <= Shards(total) && 0 <= offset < SEEDS_PER_SHARD ==>
                  NodeIn(shard, offset) in seeds && ShardOf(NodeIn(shard, offset)) == shard)
  {
    var shards := Shards(total);
    var n := SeedCount(total);
    var seeds := FirstSeeds(shards, n);
    assert n <= SHARD_SIZE * shards == total;
    forall i | 0 <= i < n ensures i / shards < SHARD_SIZE && 1 <= SeedAt(shards, i) <= total {
      QuotientBelow(i, shards, SHARD_SIZE);
      assert i % shards <= shards - 1;
    }
    forall i, j | 0 <= i < j < n ensures seeds[i] != seeds[j] {
      if seeds[i] == seeds[j] {
        SeedInjective(shards, i, j);
      }
    }
    forall shard, offset | 1 <= shard <= shards && 0 <= offset < SEEDS_PER_SHARD
      ensures NodeIn(shard, offset) in seeds && ShardOf(NodeIn(shard, offset)) == shard
    {
      SeedPosition(shards, offset, shard - 1);
      Grow(shards, offset, 3);
      assert seeds[offset * shards + shard - 1] == NodeIn(shard, offset);
    }
  }

  /** They are chosen shard by shard at one offset, then at the next. */
  lemma SeedOrder(total: nat, shard: nat, offset: nat)
    requires ValidTotal(total) && 1 <= shard <= Shards(total)
    requires offset * Shards(total) + shard - 1 < SeedCount(total)
    ensures FirstSeeds(Shards(total), SeedCount(total))[offset * Shards(total) + shard - 1]
            == (shard - 1) * 20 + offset + 1
  {
    SeedPosition(Shards(total), offset, shard - 1);
  }

  /** The extra seed is chosen exactly from 80 nodes on: the first pair of loops then reaches the target, and
      the second one appends before it looks. With 80 nodes 17 seeds are chosen where 16 are wanted. */
  lemma ExtraSeedExact(total: nat)
    requires ValidTotal(total)
    ensures |FirstSeeds(Shards(total), SeedCount(total))| == SeedTarget(total) <==> total < 80
    ensures total == 80 ==> |FirstSeeds(Shards(total), SeedCount(total))| == 17 && SeedTarget(total) == 16
  {
    assert Shards(total) < 4 <==> total < 80;
  }

  // ---------------------------------------------------------------- start order

  /** The loop over all nodes that keeps those that are not seeds. */
  method NonSeeds(seeds: seq<nat>, total: nat) returns (rest: seq<nat>)
    ensures Distinct(rest)
    ensures forall node :: node in rest <==> 1 <= node <= total && node !in seeds
  {
    rest := [];
    for node := 1 to total + 1
      invariant Distinct(rest)
      invariant forall x :: x in rest <==> 1 <= x < node && x !in seeds
    {
      var isSeed := false;
      for i := 0 to |seeds|
        invariant isSeed <==> node in seeds[..i]
      {
        if seeds[i] == node {
          isSeed := true;
          assert node in seeds[..i + 1];
          assert node in seeds;
          break;
        }
      }
      if !isSeed {
        assert seeds[..|seeds|] == seeds;
        rest := rest + [node];
      }
    }
  }

  /** The whole script's starts, in order: the seeds, then the others batch by batch. */
  method StartCluster(total: nat) returns (started: Option<seq<nat>>)
    ensures started.None? <==> !ValidTotal(total)
    ensures started.Some? ==> Distinct(started.value) && forall node :: node in started.value <==> 1 <= node <= total
    ensures started.Some? ==> FirstSeeds(Shards(total), SeedCount(total)) <= started.value
  {
    if total < SHARD_SIZE || total % SHARD_SIZE != 0 {
      return None;
    }
    var seeds := SelectSeeds(total);
    SeedsWellPlaced(total);
    var rest := NonSeeds(seeds, total);
    var order := seeds;
    var offset := 0;
    while offset < |rest|
      invariant order == seeds + rest[..if offset < |rest| then offset else |rest|]
      decreases |rest| - offset
    {
      var end := offset + BatchSize(total);
      if end > |rest| {
        end := |rest|;
      }
      for i := offset to end
        invariant order == seeds + rest[..i]
      {
        order := order + [rest[i]];
      }
      offset := offset + BatchSize(total);
    }
    assert rest[..|rest|] == rest;
    assert order == seeds + rest;
    DistinctConcat(seeds, rest);
    started := Some(order);
  }

  // ---------------------------------------------------------------- ports

  /** `target_ports_for_shard`. */
  function TargetPorts(apiBase: nat, shard: nat): (ports: seq<nat>)
    requires shard >= 1
    ensures |ports| == SHARD_SIZE
  {
    seq(SHARD_SIZE, i requires 0 <= i < SHARD_SIZE => apiBase + (shard - 1) * SHARD_SIZE + i)
  }

  /** The ports measured for a shard are exactly the API ports of the nodes subscribed to its topic. */
  lemma PortsMatchShards(apiBase: nat, shard: nat, node: nat)
    requires shard >= 1 && node >= 1
    ensures apiBase + node - 1 in TargetPorts(apiBase, shard) <==> ShardOf(node) == shard
  {
    var ports := TargetPorts(apiBase, shard);
    if ShardOf(node) == shard {
      assert ports[(node - 1) % SHARD_SIZE] == apiBase + node - 1;
    }
  }

  // ---------------------------------------------------------------- rounds

  /** `shard_for_round` in topic-aware mode. */
  function ShardForRound(round: nat, shards: nat): (s: nat)
    requires round >= 1 && shards >= 1
  {
    (round - 1) % shards + 1
  }

  /** `repetition_for_round`. */
  function RepetitionForRound(round: nat, shards: nat): (r: nat)
    requires round >= 1 && shards >= 1
  {
    (round - 1) / shards + 1
  }

  function RoundOf(shard: nat, repetition: nat, shards: nat): int {
    (repetition - 1) * shards + shard
  }

  /** Rounds correspond one to one to pairs of a shard and a repetition. */
  lemma RoundsAndPairs(round: nat, shards: nat, shard: nat, repetition: nat)
    requires round >= 1 && 1 <= shard <= shards && repetition >= 1
    ensures 1 <= ShardForRound(round, shards) <= shards && RepetitionForRound(round, shards) >= 1
    ensures RoundOf(shard, repetition, shards) == round
            <==> ShardForRound(round, shards) == shard && RepetitionForRound(round, shards) == repetition
  {
    QuotientAndRest(round - 1, shards);
    DivMod(shards, repetition - 1, shard - 1);
  }

  /** How many of the first `rounds` rounds go to the shard. */
  function RoundsFor(shard: nat, rounds: nat, shards: nat): nat
    requires shards >= 1
  {
    if rounds == 0 then 0
    else RoundsFor(shard, rounds - 1, shards) + if ShardForRound(rounds, shards) == shard then 1 else 0
  }

  lemma QuotientStep(x: nat, d: nat)
    requires d >= 1
    ensures (x + 1) / d == x / d + if (x + 1) % d == 0 then 1 else 0
  {
    var q, r := x / d, x % d;
    QuotientAndRest(x, d);
    if r + 1 < d {
      DivMod(d, q, r + 1);
    } else {
      assert (q + 1) * d + 0 == x + 1;
      DivMod(d, q + 1, 0);
    }
  }

  lemma {:induction false} RoundsForShare(shard: nat, rounds: nat, shards: nat)
    requires 1 <= shard <= shards
    ensures RoundsFor(shard, rounds, shards) == (rounds + shards - shard) / shards
  {
    if rounds == 0 {
      DivMod(shards, 0, shards - shard);
    } else {
      RoundsForShare(shard, rounds - 1, shards);
      QuotientStep(rounds - 1 + shards - shard, shards);
      ShardTurn(shard, rounds, shards);
    }
  }

  lemma ShardTurn(shard: nat, round: nat, shards: nat)
    requires 1 <= shard <= shards && round >= 1
    ensures ShardForRound(round, shards) == shard <==> (round + shards - shard) % shards == 0
  {
    var q, r := (round - 1) / shards, (round - 1) % shards;
    QuotientAndRest(round - 1, shards);
    if shard == 1 {
      assert round + shards - shard == (q + 1) * shards + r;
      DivMod(shards, q + 1, r);
    } else {
      RoundedUp(shards, q, r, shard - 1);
    }
  }

  /** Every shard gets the rounded-down or the rounded-up share of the rounds. */
  lemma FairShare(shard: nat, rounds: nat, shards: nat)
    requires 1 <= shard <= shards
    ensures RoundsFor(shard, rounds, shards) in {rounds / shards, (rounds + shards - 1) / shards}
  {
    RoundsForShare(shard, rounds, shards);
    var q, r := rounds / shards, rounds % shards;
    QuotientAndRest(rounds, shards);
    RoundedUp(shards, q, r, shard);
    RoundedUp(shards, q, r, 1);
  }

  lemma RoundedUp(d: nat, q: nat, r: nat, k: nat)
    requires 1 <= k <= d && r < d
    ensures (q * d + r + d - k) / d == if r >= k then q + 1 else q
    ensures (q * d + r + d - k) % d == if r >= k then r - k else r + d - k
  {
    if r >= k {
      assert (q + 1) * d + (r - k) == q * d + r + d - k;
      DivMod(d, q + 1, r - k);
    } else {
      DivMod(d, q, r + d - k);
    }
  }

  /** `round_plan`: how many rounds are run, numbered from 1. */
  function PlannedRounds(shards: nat, roundsPerShard: nat, requestCount: int): nat {
    if requestCount > 0 then requestCount else shards * roundsPerShard
  }

  /** With a positive request count just that many rounds are run; without one every shard gets exactly its rounds. */
  lemma FullPlanExact(shard: nat, shards: nat, roundsPerShard: nat)
    requires 1 <= shard <= shards
    ensures RoundsFor(shard, PlannedRounds(shards, roundsPerShard, 0), shards) == roundsPerShard
    ensures forall n: int :: n > 0 ==> PlannedRounds(shards, roundsPerShard, n) == n
  {
    RoundsForShare(shard, shards * roundsPerShard, shards);
    assert shards * roundsPerShard == roundsPerShard * shards;
    DivMod(shards, roundsPerShard, shards - shard);
  }
}
