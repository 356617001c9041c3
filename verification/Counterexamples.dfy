/** Inputs at which the code falls short of what one would expect, one for each exact condition. */
module Counterexamples {
  import opened Score
  import opened Pools
  import opened StorageModel
  import opened RecoveryKeys
  import opened System
  import opened NoLoss
  import opened SmallSteps
  import opened EntryLists
  import M = MemoryPools
  import MemoryRuns
  import R = RedisPools
  import RedisRuns
  import CacheComparison
  import RankedSets
  import opened MemoryCaches

  // ---------- a pull with a minimum score ----------

  const TWO := [Msg("x", 1.0), Msg("y", 2.0)]
  const HIGH := Pools.Pull(1, Some(2.0), None, 300000.0)

  lemma TwoAreNew()
    ensures Latest(TWO) == map["x" := 1.0, "y" := 2.0]
  {
    assert TWO[..1] == [Msg("x", 1.0)] && TWO[..1][..0] == [];
  }

  lemma FreshSnoc(messages: seq<Msg>, m: Msg)
    ensures M.Fresh(M.EMPTY, messages + [m]) == M.Fresh(M.EMPTY, messages) + [M.ToEntry(m)]
  {
    assert (messages + [m])[..|messages|] == messages;
  }

  lemma InsertAllSnoc(l: EntryList, es: seq<Entry>, e: Entry)
    ensures InsertAll(l, es + [e]) == InsertEntry(InsertAll(l, es), e)
  {
    assert (es + [e])[..|es|] == es;
  }

  lemma TwoAreFresh()
    ensures M.Fresh(M.EMPTY, TWO) == [Entry("x", 1.0, 0.0), Entry("y", 2.0, 0.0)]
  {
    assert [] + [TWO[0]] == [TWO[0]] && [TWO[0]] + [TWO[1]] == TWO;
    FreshSnoc([], TWO[0]);
    FreshSnoc([TWO[0]], TWO[1]);
    assert M.Fresh(M.EMPTY, []) == [];
    hide M.Fresh;
  }

  lemma TwoAreSorted(x: Entry, y: Entry)
    requires x.score < y.score && x.id != y.id
    ensures InsertAll([], [x, y]) == [x, y]
  {
    assert [] + [x] == [x] && [x] + [y] == [x, y];
    InsertAllSnoc([], [], x);
    InsertAllSnoc([], [x], y);
    assert InsertAll([], []) == [];
    hide InsertAll;
    RemoveAtIndex([x], y.id, 1);
    InsertAtIndex([x], y, 1);
  }

  lemma TwoInMemory(p: M.Lists)
    requires p == MemoryRuns.After([Insert(TWO)])
    ensures p.active == [Entry("x", 1.0, 0.0), Entry("y", 2.0, 0.0)]
  {
    assert [Insert(TWO)][..0] == [];
    assert MemoryRuns.After([]) == M.EMPTY;
    hide M.Fresh;
    hide InsertAll;
    assert p.active == InsertAll([], M.Fresh(M.EMPTY, TWO));
    TwoAreFresh();
    TwoAreSorted(Entry("x", 1.0, 0.0), Entry("y", 2.0, 0.0));
  }

  lemma {:induction false} AllAreFresh(messages: seq<Msg>)
    ensures R.Fresh(R.EMPTY, messages) == messages
  {
    if messages == [] {
    } else {
      AllAreFresh(messages[..|messages| - 1]);
    }
  }

  lemma TwoInRedis(z: R.ZPools)
    requires z == RedisRuns.After([Insert(TWO)])
    ensures z.active == map["x" := 1.0, "y" := 2.0]
  {
    assert [Insert(TWO)][..0] == [];
    AllAreFresh(TWO);
    TwoAreNew();
    assert RedisRuns.After([]) == R.EMPTY;
    hide R.Fresh;
    hide Latest;
    assert z.active == R.EMPTY.active + Latest(TWO);
  }

  /** In a list of x and y with scores 1 and 2, the range from 2 on starts at y. */
  lemma RangeFromTwo(l: EntryList)
    requires l == [Entry("x", 1.0, 0.0), Entry("y", 2.0, 0.0)]
    ensures CacheComparison.Low(l, HIGH.min) == 1 && CacheComparison.High(l, HIGH.max) == 2
    ensures M.Ids(l) == ["x", "y"] && M.Scores(Content(l)) == map["x" := 1.0, "y" := 2.0]
  {
    assert l[1..] == [l[1]] && l[1..][1..] == [];
    assert Content(l[1..]) == map["y" := l[1]];
    assert !CacheComparison.AtLeast(HIGH.min)(l[0]) && CacheComparison.AtLeast(HIGH.min)(l[1]);
  }

  lemma MemoryAnswersNone(p: M.Lists)
    requires p.active == [Entry("x", 1.0, 0.0), Entry("y", 2.0, 0.0)]
    ensures M.Apply(p, HIGH).1 == []
  {
    hide M.DoPull;
    hide M.Ids;
    hide CacheComparison.Low;
    hide CacheComparison.High;
    RangeFromTwo(p.active);
    CacheComparison.MemoryAnswer(p, HIGH);
  }

  lemma RedisAnswersOne(z: R.ZPools)
    requires z.active == map["x" := 1.0, "y" := 2.0]
    ensures R.Apply(z, HIGH).1 == ["y"]
  {
    hide M.Ids;
    hide M.Scores;
    hide Content;
    hide CacheComparison.Low;
    hide CacheComparison.High;
    hide R.PullElements;
    hide RankedSets.RangeByScore;
    var l := [Entry("x", 1.0, 0.0), Entry("y", 2.0, 0.0)];
    RangeFromTwo(l);
    CacheComparison.RedisAnswer(l, HIGH);
    R.PullElementsOrdered(z.active, HIGH);
    assert ["x", "y"][1..2] == ["y"];
  }

  /** Scores 1 and 2, one message asked for with a minimum of 2: the in-memory cache answers
      nothing, the Redis cache answers the second message. */
  lemma ShortPullInMemory()
    ensures M.Apply(MemoryRuns.After([Insert(TWO)]), HIGH).1 == []
    ensures R.Apply(RedisRuns.After([Insert(TWO)]), HIGH).1 == ["y"]
  {
    hide *;
    TwoInMemory(MemoryRuns.After([Insert(TWO)]));
    TwoInRedis(RedisRuns.After([Insert(TWO)]));
    MemoryAnswersNone(MemoryRuns.After([Insert(TWO)]));
    RedisAnswersOne(RedisRuns.After([Insert(TWO)]));
  }

  // ---------- a negative lock time ----------

  const ITEM := AddItem("q", "x", 7.0, 100, false, "")
  const STORED := Doc("q", "x", 1, 7.0, 100, false, 0, "")
  const PULL := Pools.Pull(1, None, None, 300000.0)
  const REPLY := Reply(0.0, 0.0, -1)
  const ONE := Sys(Shelf(map["q:x" := STORED], 1), map["q" := map["x" := Active(7.0)]], NO_KEYS)
  const PULLED := ONE.(cache := map["q" := map["x" := Processing(300000.0)]])
  const ACKED := STORED.(score := UNDEFINED, lockMs := -1)
  const SETTLED := Sys(Shelf(map["q:x" := ACKED], 1), map["q" := map["x" := Active(UNDEFINED)]], NO_KEYS)

  lemma OneKey()
    ensures JoinKey("q", "x") == "q:x" && KeyOf(STORED) == "q:x"
  {
  }

  lemma OneIsAdded()
    ensures Next(EMPTY, Action.Add([ITEM]), 0, ONE)
  {
    OneKey();
    AddOne(EMPTY, ITEM, 0, ONE);
  }

  lemma OneIsPulled()
    ensures Next(ONE, Action.Pull("q", PULL, 0), 0, PULLED)
  {
    OneKey();
    assert Stored(ONE.shelf.docs, STORED);
    PullOne(ONE, "q", "x", 7.0, PULL, 0, PULLED);
  }

  lemma OneIsSettled()
    ensures Next(PULLED, Action.Settle(LockAck, "q", "x", REPLY), 0, SETTLED)
  {
    OneKey();
    var op := AckOp(LockAck, "x", UNDEFINED, -1, 0);
    assert PULLED.Pool("q") == map["x" := Processing(300000.0)];
    assert SETTLED.Pool("q") == PULLED.Pool("q")["x" := Active(UNDEFINED)];
    assert Operates(PULLED, "q", op, ["x"], SETTLED);
  }

  /** An ack without a score and with a lock time of -1 ms leaves an active score of -1. */
  lemma NegativeLockLeavesRange() returns (run: Run)
    ensures run.Valid()
    ensures run.actions == [Action.Add([ITEM]), Action.Pull("q", PULL, 0), Action.Settle(LockAck, "q", "x", REPLY)]
    ensures run.states[3].Pool("q") == map["x" := Active(-1.0)] && !InBounds(-1.0)
  {
    OneIsAdded();
    OneIsPulled();
    OneIsSettled();
    hide Next;
    run := Run([EMPTY, ONE, PULLED, SETTLED],
               [Action.Add([ITEM]), Action.Pull("q", PULL, 0), Action.Settle(LockAck, "q", "x", REPLY)], [0, 0, 0]);
  }

  // ---------- a limit that expired documents use up ----------

  const SHORT_X := AddItem("q", "x", 7.0, 5, false, "")
  const SHORT_Y := AddItem("q", "y", 7.0, 5, false, "")
  const DEAD_X := Doc("q", "x", 1, 7.0, 5, false, 0, "")
  const DEAD_Y := Doc("q", "y", 2, 7.0, 5, false, 0, "")
  const DEAD: Docs := map["q:x" := DEAD_X, "q:y" := DEAD_Y]
  const CROWDED := Sys(Shelf(DEAD, 2), map["q" := map["x" := Active(7.0), "y" := Active(7.0)]], NO_KEYS)

  lemma CrowdIsAdded()
    ensures Next(EMPTY, Action.Add([SHORT_X, SHORT_Y]), 0, CROWDED)
  {
    assert JoinKey("q", "x") == "q:x" && JoinKey("q", "y") == "q:y" && "q:x"[2] != "q:y"[2];
    AddTwo(SHORT_X, SHORT_Y, 0, CROWDED);
  }

  lemma CountCrowd()
    ensures CountOf(DEAD, "q") == 2
  {
    assert "q:x"[2] != "q:y"[2];
    assert (set k | k in DEAD && DEAD[k].queue == "q") == {"q:x", "q:y"};
  }

  lemma NothingToEvict()
    ensures Next(CROWDED, Action.RemoveExceeding("q", 1), 10, CROWDED)
  {
    CountCrowd();
    forall d | Stored(DEAD, d) ensures !Live(d, 10) {
      assert KeyOf(d) == "q:x" || KeyOf(d) == "q:y";
    }
    assert Answers(DEAD, 10, ANY.(queue := "q"), ByExpiry, 1, []);
    assert WellKeyed(DEAD) by {
      assert JoinKey("q", "x") == "q:x" && JoinKey("q", "y") == "q:y";
    }
    assert EvictStep(CROWDED, [], CROWDED);
    assert ExceedingStep(CROWDED, "q", 1, 10, [], CROWDED);
  }

  /** Two expired documents, a limit of one: the eviction finds nothing to remove. */
  lemma LimitIsMissed() returns (run: Run)
    ensures run.Valid() && run.actions == [Action.Add([SHORT_X, SHORT_Y]), Action.RemoveExceeding("q", 1)]
    ensures CountOf(run.states[2].shelf.docs, "q") == 2
  {
    CrowdIsAdded();
    NothingToEvict();
    CountCrowd();
    hide Next;
    run := Run([EMPTY, CROWDED, CROWDED], [Action.Add([SHORT_X, SHORT_Y]), Action.RemoveExceeding("q", 1)], [0, 10]);
  }

  // ---------- TTL and a timeless message ----------

  /** 100 years after the origin of the clock, in nanoseconds: the expiry of a timeless message. */
  const FAR: int := 36525 * 24 * 3600 * 1_000_000_000
  const FOREVER := AddItem("q", "x", 7.0, FAR, true, "")
  const AGAIN := AddItem("q", "x", 7.0, 5, false, "")
  const TIMELESS := Doc("q", "x", 1, 7.0, FAR, true, 0, "")
  const KEPT := Sys(Shelf(map["q:x" := TIMELESS], 1), map["q" := map["x" := Active(7.0)]], NO_KEYS)
  const SHORTENED := KEPT.(shelf := Shelf(map["q:x" := TIMELESS.(expiry := 5)], 1))
  const EMPTIED := Sys(Shelf(map[], 1), map["q" := map[]], NO_KEYS)

  lemma TimelessIsAdded()
    ensures Next(EMPTY, Action.Add([FOREVER]), 0, KEPT) && Next(KEPT, Action.Add([AGAIN]), 0, SHORTENED)
  {
    assert JoinKey("q", "x") == "q:x";
    AddOne(EMPTY, FOREVER, 0, KEPT);
    AddOne(KEPT, AGAIN, 0, SHORTENED);
  }

  lemma TimelessIsEvicted()
    ensures Next(SHORTENED, Action.RemoveExpired, 10, EMPTIED)
  {
    var docs, d := SHORTENED.shelf.docs, TIMELESS.(expiry := 5);
    assert KeyOf(d) == "q:x";
    forall x ensures Stored(docs, x) <==> x == d { }
    assert Answers(docs, 10, ANY.(expiredBy := Some(10)), ByExpiry, TTL_BATCH, [d]);
    forall queue, id ensures Evicted([d], queue, id) <==> queue == "q" && id == "x" {
      assert [d][0].queue == "q";
    }
    assert EvictStep(SHORTENED, [d], EMPTIED);
    assert ExpiredStep(SHORTENED, 10, [d], EMPTIED);
  }

  /** A timeless message added again without the flag and with a short TTL: it is still timeless,
      and so live, but the TTL task removes it once the new expiry has passed. */
  lemma TimelessIsRemovedByTtl() returns (run: Run)
    ensures run.Valid() && run.actions == [Action.Add([FOREVER]), Action.Add([AGAIN]), Action.RemoveExpired]
    ensures run.times == [0, 0, 10]
    ensures Stored(run.states[2].shelf.docs, TIMELESS.(expiry := 5)) && Live(TIMELESS.(expiry := 5), 10)
    ensures run.states[3].shelf.docs == map[]
  {
    hide Next;
    TimelessIsAdded();
    TimelessIsEvicted();
    assert KeyOf(TIMELESS) == "q:x";
    run := Run([EMPTY, KEPT, SHORTENED, EMPTIED],
               [Action.Add([FOREVER]), Action.Add([AGAIN]), Action.RemoveExpired], [0, 0, 10]);
  }

  // ---------- unlocking another queue ----------

  const WAITING := M.Lists([Entry("x", 7.0, 0.0)], [], [], [])
  const TAKEN := M.Lists([], [Entry("x", 300000.0, 0.0)], [], [])
  const HELD := M.Lists([], [], [Entry("x", 7.0, 5.0)], [])
  const OPENED := M.Lists([Entry("x", 7.0, 5.0)], [], [], [])

  lemma InsertedAlone(x: Entry)
    ensures InsertAll([], [x]) == [x] && InsertEntry([], x) == [x]
  {
    assert [x][..0] == [];
  }

  lemma Waits()
    ensures M.Apply(M.EMPTY, Insert([Msg("x", 7.0)])).0 == WAITING
  {
    var m, x := Msg("x", 7.0), Entry("x", 7.0, 0.0);
    assert [m][..0] == [];
    assert M.Fresh(M.EMPTY, [m]) == [x];
    InsertedAlone(x);
  }

  lemma IsTaken()
    ensures M.Apply(WAITING, Pools.Pull(1, None, None, 300000.0)).0 == TAKEN
  {
    var x := Entry("x", 7.0, 0.0);
    assert [x][..1] == [x] && [x][..0] == [] && [x][1..] == [];
    assert M.Select([x], None, None, true) == [x] && M.Select([x], None, None, false) == [];
    assert M.Restamp([x], 300000.0) == [Entry("x", 300000.0, 0.0)];
    InsertedAlone(Entry("x", 300000.0, 0.0));
  }

  lemma IsHeld()
    ensures M.Apply(TAKEN, Lock("x", LockAck, 5.0, 7.0)).0 == HELD
  {
    assert TAKEN.processing[0].id == "x";
    assert RemoveId(TAKEN.processing, "x") == [];
    InsertedAlone(Entry("x", 7.0, 5.0));
  }

  lemma IsOpened()
    ensures M.Apply(HELD, UnlockAt(LockAck, 5_000_000)) == (OPENED, ["x"])
  {
    UnlockAtIndex(HELD, UnlockAt(LockAck, 5_000_000), 0);
    assert RemoveId(HELD.lockAck, "x") == [];
    InsertedAlone(Entry("x", 7.0, 5.0));
  }

  /** A lock of queue b is due; an unlock call for queue a opens it. */
  method UnlockReachesOtherQueue() returns (cache: MemoryCache, ids: seq<string>)
    ensures "x" in ids && cache.At("b") == OPENED
  {
    hide M.Apply;
    hide M.Inv;
    Waits();
    IsTaken();
    IsHeld();
    IsOpened();
    cache := new MemoryCache();
    assert cache.State().At("b") == M.EMPTY;
    assert Bare([QueuedMsg("b", "x", 7.0)]) == [Msg("x", 7.0)];
    var _ := cache.Insert("b", [QueuedMsg("b", "x", 7.0)]);
    assert cache.State().At("b") == WAITING;
    var _ := cache.PullMessages("b", 1, None, None, 300000, 0);
    assert cache.State().At("b") == TAKEN;
    var _ := cache.LockMessage("b", "x", 7.0, 5, LockAck, 0);
    assert cache.State().At("b") == HELD;
    ids := cache.UnlockMessages("a", LockAck, 5_000_000);
  }
}
