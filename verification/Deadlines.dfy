/** When a pulled message times out. The Redis cache counts the requested milliseconds, but its
    timeout range starts at 0, so a deadline before the origin of the clock never comes. The
    in-memory cache adds the requested number to a reading in seconds and compares seconds, so it
    waits that many seconds. */
module Deadlines {
  import opened Score
  import opened Pools
  import opened PoolRuns
  import opened Clock
  import M = MemoryPools
  import R = RedisPools
  import opened MemoryCaches
  import RedisCaches
  import RankedSets
  import RedisRuns

  const NS_PER_SEC: int := 1_000_000_000
  const NS_PER_MS: int := 1_000_000

  /** The wait a pull asks for; 0 stands for the default. */
  function Wait(ackDeadlineMs: int): int {
    if ackDeadlineMs == 0 then DEFAULT_TIMEOUT_MS else ackDeadlineMs
  }

  /** What the request means: the wait has passed, in milliseconds of the clock. */
  predicate Requested(now: nat, ackDeadlineMs: int, later: nat) {
    Ms(later) >= Ms(now) + Wait(ackDeadlineMs)
  }

  /** A message pulled at `now` counts as timed out at `later` in memory. */
  predicate MemoryDue(now: nat, ackDeadlineMs: int, later: nat) {
    MemoryDeadline(now, ackDeadlineMs) <= Sec(later) as real
  }

  lemma SecReached(later: nat, target: int)
    ensures Sec(later) >= target <==> later >= target * NS_PER_SEC
  {
  }

  lemma MsReached(later: nat, target: int)
    ensures Ms(later) >= target <==> later >= target * NS_PER_MS
  {
  }

  /** The moments the in-memory cache and the request wait for. */
  lemma DueAt(now: nat, ackDeadlineMs: int, later: nat)
    ensures MemoryDue(now, ackDeadlineMs, later) <==> later >= (Sec(now) + Wait(ackDeadlineMs)) * NS_PER_SEC
    ensures Requested(now, ackDeadlineMs, later) <==> later >= (Ms(now) + Wait(ackDeadlineMs)) * NS_PER_MS
  {
    SecReached(later, Sec(now) + Wait(ackDeadlineMs));
    MsReached(later, Ms(now) + Wait(ackDeadlineMs));
  }

  lemma SecAndMs(now: nat)
    ensures Sec(now) * 1000 <= Ms(now) < Sec(now) * 1000 + 1000
  {
  }

  /** In memory a positive wait is never cut short and a negative one never prolonged. The cache
      and the request disagree exactly between the requested moment and the one at which as many
      seconds have passed as milliseconds were asked for. */
  lemma MemoryWaitsSeconds(now: nat, ackDeadlineMs: int, later: nat)
    ensures ackDeadlineMs >= 0 ==> (MemoryDue(now, ackDeadlineMs, later) ==> Requested(now, ackDeadlineMs, later))
    ensures ackDeadlineMs < 0 ==> (Requested(now, ackDeadlineMs, later) ==> MemoryDue(now, ackDeadlineMs, later))
    ensures var asked, counted :=
            (Ms(now) + Wait(ackDeadlineMs)) * NS_PER_MS, (Sec(now) + Wait(ackDeadlineMs)) * NS_PER_SEC;
            (MemoryDue(now, ackDeadlineMs, later) <==> Requested(now, ackDeadlineMs, later))
            <==> !(asked <= later < counted || counted <= later < asked)
  {
    var w := Wait(ackDeadlineMs);
    DueAt(now, ackDeadlineMs, later);
    SecAndMs(now);
    assert w > 0 ==> (Ms(now) + w) * NS_PER_MS <= (Sec(now) + w) * NS_PER_SEC;
    assert w < 0 ==> (Sec(now) + w) * NS_PER_SEC <= (Ms(now) + w) * NS_PER_MS;
  }

  /** A pull without a deadline asks for 300 seconds: in memory the message is still held 83 hours later. */
  lemma DefaultWait(now: nat)
    ensures Requested(now, 0, now + 300 * NS_PER_SEC)
    ensures !MemoryDue(now, 0, now + 83 * 3600 * NS_PER_SEC)
    ensures MemoryDue(now, 0, now + 300_000 * NS_PER_SEC)
  {
    DueAt(now, 0, now + 300 * NS_PER_SEC);
    DueAt(now, 0, now + 83 * 3600 * NS_PER_SEC);
    DueAt(now, 0, now + 300_000 * NS_PER_SEC);
    SecAndMs(now);
    assert Sec(now) * NS_PER_SEC <= now < (Sec(now) + 1) * NS_PER_SEC;
    assert Ms(now) * NS_PER_MS <= now;
  }

  // ---------- what the caches do with it ----------

  /** An id that a pull of the in-memory cache took is due exactly as `MemoryDue` says. */
  lemma PulledInMemory(p: M.Lists, n: int, min: Option<real>, max: Option<real>, ackDeadlineMs: int, now: nat,
                       later: nat, id: string)
    requires M.Inv(p)
    requires id in M.Apply(p, Pools.Pull(n, min, max, MemoryDeadline(now, ackDeadlineMs))).1
    ensures var p' := M.Apply(p, Pools.Pull(n, min, max, MemoryDeadline(now, ackDeadlineMs))).0;
            id in Due(M.Abs(p'), Timeout(Sec(later) as real)) <==> MemoryDue(now, ackDeadlineMs, later)
  {
    var op := Pools.Pull(n, min, max, MemoryDeadline(now, ackDeadlineMs));
    M.Refines(p, op);
    hide M.Apply;
    hide M.Abs;
    hide M.Inv;
    assert M.Abs(M.Apply(p, op).0)[id] == Processing(op.deadline);
  }

  // ---------- Redis ----------

  /** The deadline lies at or after the origin of the clock. */
  predicate DeadlineSeen(now: nat, ackDeadlineMs: int) {
    Ms(now) + Wait(ackDeadlineMs) >= 0
  }

  /** Some number of timeout calls at `later` frees the id. */
  ghost predicate Freed(z: R.ZPools, later: nat, id: string) {
    exists k: nat :: Gone(z, later, id, k)
  }

  ghost predicate Gone(z: R.ZPools, later: nat, id: string, k: nat) {
    var op := Timeout(Ms(later) as real);
    id !in RedisRuns.Again(z, op, k).processing
  }

  function RedisPull(n: int, min: Option<real>, max: Option<real>, ackDeadlineMs: int, now: nat): Op {
    Pools.Pull(n, min, max, RedisCaches.RedisDeadline(now, ackDeadlineMs))
  }

  lemma PulledDeadline(z: R.ZPools, op: Op, id: string)
    requires op.Pull? && id in R.Apply(z, op).1
    ensures id in R.Apply(z, op).0.processing && R.Apply(z, op).0.processing[id] == op.deadline
  {
    hide R.PullElements;
  }

  /** An id that a Redis pull took is freed by timeout calls at `later` exactly when the requested
      milliseconds have passed and the deadline does not lie before the origin of the clock. */
  lemma PulledInRedis(z: R.ZPools, n: int, min: Option<real>, max: Option<real>, ackDeadlineMs: int, now: nat,
                      later: nat, id: string)
    requires id in R.Apply(z, RedisPull(n, min, max, ackDeadlineMs, now)).1
    ensures var z' := R.Apply(z, RedisPull(n, min, max, ackDeadlineMs, now)).0;
            Freed(z', later, id) <==> Requested(now, ackDeadlineMs, later) && DeadlineSeen(now, ackDeadlineMs)
  {
    var pull, op := RedisPull(n, min, max, ackDeadlineMs, now), Timeout(Ms(later) as real);
    var z' := R.Apply(z, pull).0;
    PulledDeadline(z, pull, id);
    hide R.Apply;
    RedisRuns.FreedIff(z', op, id);
    if Freed(z', later, id) {
      var k: nat :| Gone(z', later, id, k);
      assert id !in RedisRuns.Times(RedisRuns.Again(z', op, k), op);
    }
    if k: nat :| id !in RedisRuns.Times(RedisRuns.Again(z', op, k), op) {
      assert Gone(z', later, id, k);
    }
  }

  /** A pull at 1 ms that asks for -2 ms: by the request the message is overdue at once, but no
      number of timeout calls ever frees it in Redis. */
  lemma NegativeDeadlineNeverFreed(later: nat)
    requires later >= NS_PER_MS
    ensures var stored := RedisRuns.After([Insert([Msg("x", 1.0)]), RedisPull(1, None, None, -2, NS_PER_MS)]);
            Requested(NS_PER_MS, -2, later) && "x" in stored.processing && !Freed(stored, later, "x")
  {
    var insert, pull := Insert([Msg("x", 1.0)]), RedisPull(1, None, None, -2, NS_PER_MS);
    var z := RedisRuns.After([insert]);
    SingleStored(z);
    assert [insert, pull][..1] == [insert];
    PulledInRedis(z, 1, None, None, -2, NS_PER_MS, later, "x");
    PulledDeadline(z, pull, "x");
  }

  lemma SingleStored(z: R.ZPools)
    requires z == RedisRuns.After([Insert([Msg("x", 1.0)])])
    ensures z.active == map["x" := 1.0]
    ensures forall deadline :: R.Apply(z, Pools.Pull(1, None, None, deadline)).1 == ["x"]
  {
    var m := Msg("x", 1.0);
    assert [Insert([m])][..0] == [] && [m][..0] == [];
    assert RedisRuns.After([]) == R.EMPTY;
    assert R.Fresh(R.EMPTY, [m]) == [m];
    assert Latest([m]) == map["x" := 1.0];
    assert z.active == map["x" := 1.0];
    assert RankedSets.IsFirst(z.active, RankedSets.First(z.active));
    assert z.active - {"x"} == map[];
    assert RankedSets.Ranked(z.active) == ["x"];
  }
}
