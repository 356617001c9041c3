/** The housekeeping tasks of queue_housekeeper.go, each proved against its step of `System`. */
module Housekeeper {
  import opened Score
  import opened Pools
  import opened StorageModel
  import opened RecoveryKeys
  import opened System
  import RequestRules
  import opened Queues

  // ---------- recovery ----------

  /** Brings recovered scores back into range before they reach the cache. */
  method ClampScores(messages: seq<Doc>) returns (r: seq<QueuedMsg>)
    ensures r == Recalled(messages)
    ensures forall i | 0 <= i < |messages| :: RequestRules.BroughtInRange(messages[i].score, r[i].score)
  {
    r := [];
    for i := 0 to |messages|
      invariant r == Recalled(messages[..i])
    {
      var score := messages[i].score;
      if score < MIN {
        score := MIN;
      } else if score > MAX {
        score := MAX;
      }
      r := r + [QueuedMsg(messages[i].queue, messages[i].id, score)];
    }
    assert messages[..|messages|] == messages;
  }

  /** tryToStartRecovery: records the last live document as the target, or finishes when there is none. */
  method TryToStartRecovery(pool: Queue, now: nat) returns (started: bool, ghost last: seq<Doc>)
    requires pool.Valid() && MustStart(pool.cache.keys)
    modifies pool.cache`keys
    ensures pool.Valid() && Answers(pool.storage.docs, now, ANY, ByIdDescending, 1, last)
    ensures pool.cache.keys == Started(old(pool.cache.keys), last) && (started <==> last != [])
  {
    pool.cache.keys := pool.cache.keys.(running := true);
    var messages := pool.storage.Find(now, ANY, ByIdDescending, 1);
    last := messages;
    if |messages| == 0 {
      pool.cache.keys := pool.cache.keys.(scanned := Finished);
      pool.cache.keys := pool.cache.keys.(running := false);
      return false, last;
    }
    pool.cache.keys := pool.cache.keys.(target := RecoveryKeys.At(messages[0].internalId));
    return true, last;
  }

  method RecoveryMessagesPool(pool: Queue, now: nat, scanAt: nat)
    returns (metrify: bool, ghost last: seq<Doc>, ghost batch: seq<Doc>)
    requires pool.Valid()
    modifies pool.cache`queues, pool.cache`keys
    ensures pool.Valid()
    ensures RecoverStep(old(pool.Snapshot()), now, scanAt, last, batch, pool.Snapshot())
    ensures metrify <==> !old(pool.cache.keys.scanned).Finished?
    ensures forall queue, id :: RequestRules.BroughtBack(old(pool.Snapshot()), scanAt, pool.Snapshot(), queue, id)
  {
    hide RequestRules.BroughtBack;
    hide TablesOf;
    last, batch := [], [];
    ghost var s := pool.Snapshot();
    if pool.cache.keys.scanned.Finished? {
      NothingBroughtBack(s, scanAt, s);
      return false, last, batch;
    }
    if pool.cache.keys.scanned.Unset? && !pool.cache.keys.running {
      var started;
      started, last := TryToStartRecovery(pool, now);
      if !started {
        NothingBroughtBack(s, scanAt, pool.Snapshot());
        return true, last, batch;
      }
    }
    ghost var keys := pool.cache.keys;
    batch := ScanBatch(pool, scanAt);
    SameCacheScan(s, keys, scanAt, batch, pool.Snapshot());
    RequestRules.ScanBringsAllBack(s, keys, scanAt, batch, pool.Snapshot());
    return true, last, batch;
  }

  lemma NothingBroughtBack(s: Sys, scanAt: nat, s': Sys)
    requires s'.cache == s.cache
    ensures forall queue, id :: RequestRules.BroughtBack(s, scanAt, s', queue, id)
  {
  }

  /** Puts the documents of a batch into the cache, with their scores in range. */
  method Recall(pool: Queue, messages: seq<Doc>)
    requires pool.Valid() && forall d | d in messages :: Stored(pool.storage.docs, d)
    modifies pool.cache`queues
    ensures pool.Valid()
    ensures forall queue ::
              Fills(old(pool.Snapshot()).Pool(queue), Part(Recalled(messages), queue), pool.Snapshot().Pool(queue))
  {
    hide TablesOf;
    hide Part;
    hide Latest;
    ghost var s := pool.Snapshot();
    if |messages| > 0 {
      var addMessages := ClampScores(messages);
      NamedDocs(pool.storage.State(), messages);
      var _ := pool.AddMessagesToCache(addMessages);
    } else {
      forall queue ensures s.Pool(queue) == Inserted(s.Pool(queue), Part(Recalled(messages), queue)) {
        assert Recalled(messages) == [];
        NothingForQueue(s.Pool(queue), [], queue);
      }
    }
    forall queue { InsertedFills(s.Pool(queue), Part(Recalled(messages), queue)); }
    hide Fills;
    hide Inserted;
  }

  /** One batch of the scan: the documents after the breakpoint enter the cache, then the breakpoint moves. */
  method ScanBatch(pool: Queue, scanAt: nat) returns (messages: seq<Doc>)
    requires pool.Valid()
    modifies pool.cache`queues, pool.cache`keys
    ensures pool.Valid()
    ensures ScanStep(old(pool.Snapshot()), old(pool.cache.keys), scanAt, messages, pool.Snapshot())
    ensures forall d | d in messages && d.id !in old(pool.Snapshot()).Pool(d.queue) ::
              var entries := pool.Snapshot().Pool(d.queue);
              && d.id in entries && entries[d.id].Active?
              && RequestRules.BroughtInRange(d.score, entries[d.id].score)
  {
    hide TablesOf;
    hide Selected;
    hide Fills;
    hide RequestRules.BroughtInRange;
    ghost var s, keys := pool.Snapshot(), pool.cache.keys;
    messages := pool.storage.Find(scanAt, ScanFilter(pool.cache.keys), ByIdAscending, RECOVERY_BATCH);
    Recall(pool, messages);
    if |messages| > 0 {
      pool.cache.keys := pool.cache.keys.(scanned := RecoveryKeys.At(messages[|messages| - 1].internalId));
    }
    if |messages| < RECOVERY_BATCH {
      pool.cache.keys := pool.cache.keys.(running := false);
      pool.cache.keys := pool.cache.keys.(scanned := Finished);
    }
    RequestRules.RecalledScores(s, keys, scanAt, messages, pool.Snapshot());
  }

  lemma NamedDocs(shelf: Shelf, messages: seq<Doc>)
    requires ShelfInv(shelf) && forall d | d in messages :: Stored(shelf.docs, d)
    ensures forall i | 0 <= i < |messages| :: messages[i].queue != ""
  {
    forall i | 0 <= i < |messages| ensures messages[i].queue != "" {
      assert messages[i] in messages;
      assert Sound(shelf, shelf.docs[KeyOf(messages[i])]);
    }
  }

  lemma SameCacheScan(s: Sys, keys: Keys, scanAt: nat, batch: seq<Doc>, s': Sys)
    requires ScanStep(s.(keys := keys), keys, scanAt, batch, s')
    ensures ScanStep(s, keys, scanAt, batch, s')
  {
  }

  // ---------- evictions ----------

  /** The victims of the queues in `done` are gone. */
  ghost predicate PartEvicted(s: Sys, victims: seq<Doc>, done: set<string>, s': Sys) {
    && s'.shelf.counter == s.shelf.counter && s'.keys == s.keys
    && (forall d :: Stored(s'.shelf.docs, d) <==> Stored(s.shelf.docs, d) && !(d in victims && d.queue in done))
    && WellKeyed(s'.shelf.docs)
    && (forall queue, id ::
          id in s'.Pool(queue) <==> id in s.Pool(queue) && !(queue in done && Evicted(victims, queue, id)))
    && (forall queue, id | id in s'.Pool(queue) :: s'.Pool(queue)[id] == s.Pool(queue)[id])
  }

  function IdsIn(victims: seq<Doc>, queue: string): seq<string> {
    if victims == [] then []
    else
      var n := |victims| - 1;
      IdsIn(victims[..n], queue) + if victims[n].queue == queue then [victims[n].id] else []
  }

  lemma {:induction false} IdsInMembers(victims: seq<Doc>, queue: string, id: string)
    ensures id in IdsIn(victims, queue) <==> Evicted(victims, queue, id)
  {
    if victims == [] {
    } else {
      var n := |victims| - 1;
      IdsInMembers(victims[..n], queue, id);
      if i :| 0 <= i < n && victims[..n][i].queue == queue && victims[..n][i].id == id {
        assert victims[i].queue == queue && victims[i].id == id;
      }
      if i :| 0 <= i < |victims| && victims[i].queue == queue && victims[i].id == id {
        assert i < n ==> victims[..n][i].queue == queue && victims[..n][i].id == id;
      }
    }
  }

  lemma VictimIff(docs: Docs, victims: seq<Doc>, d: Doc)
    requires Stored(docs, d) && forall v | v in victims :: Stored(docs, v)
    ensures d in victims <==> Evicted(victims, d.queue, d.id)
  {
    forall i | 0 <= i < |victims| && victims[i].queue == d.queue && victims[i].id == d.id ensures victims[i] == d {
      assert victims[i] in victims;
    }
    if d in victims {
      var i :| 0 <= i < |victims| && victims[i] == d;
    }
  }

  /** Removing the victims' ids of one more queue. */
  lemma EvictQueue(s: Sys, victims: seq<Doc>, done: set<string>, queue: string, s1: Sys, s2: Sys)
    requires WellKeyed(s.shelf.docs) && forall v | v in victims :: Stored(s.shelf.docs, v)
    requires PartEvicted(s, victims, done, s1) && RemoveStep(s1, queue, IdsIn(victims, queue), s2)
    ensures PartEvicted(s, victims, done + {queue}, s2)
  {
    var ids := IdsIn(victims, queue);
    forall id ensures id in ids <==> Evicted(victims, queue, id) { IdsInMembers(victims, queue, id); }
    EvictQueueDocs(s.shelf.docs, victims, done, queue, s1.shelf.docs);
    EvictQueuePool(s, victims, done, queue, s1, s2);
  }

  lemma EvictQueueDocs(docs: Docs, victims: seq<Doc>, done: set<string>, queue: string, docs1: Docs)
    requires WellKeyed(docs) && WellKeyed(docs1) && forall v | v in victims :: Stored(docs, v)
    requires forall d :: Stored(docs1, d) <==> Stored(docs, d) && !(d in victims && d.queue in done)
    ensures var docs2 := Without(docs1, queue, IdsIn(victims, queue));
            && WellKeyed(docs2)
            && forall d :: Stored(docs2, d) <==> Stored(docs, d) && !(d in victims && d.queue in done + {queue})
  {
    var docs2 := Without(docs1, queue, IdsIn(victims, queue));
    forall d ensures Stored(docs2, d) <==> Stored(docs, d) && !(d in victims && d.queue in done + {queue}) {
      IdsInMembers(victims, queue, d.id);
      if Stored(docs, d) {
        VictimIff(docs, victims, d);
      }
      assert Stored(docs2, d) <==> Stored(docs1, d) && !(d.queue == queue && d.id in IdsIn(victims, queue));
    }
  }

  lemma EvictQueuePool(s: Sys, victims: seq<Doc>, done: set<string>, queue: string, s1: Sys, s2: Sys)
    requires forall q, id :: id in s1.Pool(q) <==> id in s.Pool(q) && !(q in done && Evicted(victims, q, id))
    requires forall q, id | id in s1.Pool(q) :: s1.Pool(q)[id] == s.Pool(q)[id]
    requires Operates(s1, queue, Pools.Remove(IdsIn(victims, queue)), [], s2)
    requires forall id :: id in IdsIn(victims, queue) <==> Evicted(victims, queue, id)
    ensures forall q, id :: id in s2.Pool(q) <==> id in s.Pool(q) && !(q in done + {queue} && Evicted(victims, q, id))
    ensures forall q, id | id in s2.Pool(q) :: s2.Pool(q)[id] == s.Pool(q)[id]
  {
    RemovedPool(s1, queue, IdsIn(victims, queue), s2);
  }

  lemma NoneEvictedYet(s: Sys, victims: seq<Doc>)
    requires WellKeyed(s.shelf.docs)
    ensures PartEvicted(s, victims, {}, s)
  {
  }

  lemma AllEvicted(s: Sys, victims: seq<Doc>, done: set<string>, s': Sys)
    requires PartEvicted(s, victims, done, s') && forall v | v in victims :: v.queue in done
    ensures EvictStep(s, victims, s')
  {
    forall queue, id ensures Evicted(victims, queue, id) ==> queue in done {
      forall i | 0 <= i < |victims| ensures victims[i].queue in done { assert victims[i] in victims; }
    }
  }

  /** The per-queue id lists of the TTL task. */
  method GroupIds(victims: seq<Doc>) returns (messageMap: map<string, seq<string>>)
    ensures forall queue | queue in messageMap :: messageMap[queue] == IdsIn(victims, queue)
    ensures forall v | v in victims :: v.queue in messageMap
  {
    messageMap := map[];
    for i := 0 to |victims|
      invariant forall queue | queue in messageMap :: messageMap[queue] == IdsIn(victims[..i], queue)
      invariant forall queue | queue !in messageMap :: IdsIn(victims[..i], queue) == []
      invariant forall v | v in victims[..i] :: v.queue in messageMap
    {
      var v := victims[i];
      assert victims[..i + 1] == victims[..i] + [v] && victims[..i + 1][..i] == victims[..i];
      var ids := if v.queue in messageMap then messageMap[v.queue] else [];
      messageMap := messageMap[v.queue := ids + [v.id]];
    }
    assert victims[..|victims|] == victims;
  }

  method RemoveTTLMessages(pool: Queue, filterDate: nat) returns (ran: bool, ghost victims: seq<Doc>)
    requires pool.Valid()
    modifies pool.storage`docs
    modifies pool.cache`queues, pool.cache`processingQueues, pool.cache`lockAckQueues, pool.cache`lockNackQueues
    ensures pool.Valid()
    ensures ExpiredStep(old(pool.Snapshot()), filterDate, victims, pool.Snapshot())
    ensures ran <==> !old(pool.cache.keys.running)
    ensures !ran ==> pool.Snapshot() == old(pool.Snapshot())
  {
    hide TablesOf;
    hide RemoveStep;
    hide PartEvicted;
    victims := [];
    if pool.cache.keys.running {
      return false, victims;
    }
    ghost var s := pool.Snapshot();
    var messages := pool.storage.Find(filterDate, ANY.(expiredBy := Some(filterDate)), ByExpiry, TTL_BATCH);
    victims := messages;
    var messageMap := GroupIds(messages);
    var todo := messageMap.Keys;
    NoneEvictedYet(s, messages);
    assert messageMap.Keys - todo == {};
    while todo != {}
      invariant todo <= messageMap.Keys
      invariant pool.Valid()
      invariant PartEvicted(s, messages, messageMap.Keys - todo, pool.Snapshot())
      decreases todo
    {
      var queue :| queue in todo;
      ghost var s1 := pool.Snapshot();
      var _, _ := pool.Remove(queue, messageMap[queue]);
      EvictQueue(s, messages, messageMap.Keys - todo, queue, s1, pool.Snapshot());
      assert messageMap.Keys - (todo - {queue}) == (messageMap.Keys - todo) + {queue};
      todo := todo - {queue};
    }
    AllEvicted(s, messages, messageMap.Keys - todo, pool.Snapshot());
    return true, victims;
  }

  /** removeExceedingMessagesFromQueue, with the check that recovery is not running. */
  method RemoveExceedingMessages(pool: Queue, queue: string, maxElements: int, now: nat)
    returns (ghost victims: seq<Doc>)
    requires pool.Valid()
    modifies pool.storage`docs
    modifies pool.cache`queues, pool.cache`processingQueues, pool.cache`lockAckQueues, pool.cache`lockNackQueues
    ensures pool.Valid()
    ensures ExceedingStep(old(pool.Snapshot()), queue, maxElements, now, victims, pool.Snapshot())
    ensures maxElements <= 0 || queue == "" || old(pool.cache.keys.running) ==> pool.Snapshot() == old(pool.Snapshot())
  {
    hide TablesOf;
    hide RemoveStep;
    hide PartEvicted;
    victims := [];
    if pool.cache.keys.running || maxElements <= 0 || queue == "" {
      return;
    }
    ghost var s := pool.Snapshot();
    var total := pool.storage.Count(ANY.(queue := queue));
    CountsQueue(s.shelf.docs, queue);
    if total <= maxElements {
      return;
    }
    var diff := total - maxElements;
    var messages := pool.storage.Find(now, ANY.(queue := queue), ByExpiry, diff);
    victims := messages;
    var ids := IdsOf(messages, queue);
    var _, _ := pool.Remove(queue, ids);
    NoneEvictedYet(s, messages);
    EvictQueue(s, messages, {}, queue, s, pool.Snapshot());
    assert {} + {queue} == {queue};
    AllEvicted(s, messages, {queue}, pool.Snapshot());
  }

  lemma CountsQueue(docs: Docs, queue: string)
    requires queue != ""
    ensures CountMatching(docs, ANY.(queue := queue)) == CountOf(docs, queue)
  {
    var f := ANY.(queue := queue);
    assert (set k | k in docs && Matches(docs[k], f)) == (set k | k in docs && docs[k].queue == queue);
  }

  method IdsOf(messages: seq<Doc>, ghost queue: string) returns (ids: seq<string>)
    requires forall m | m in messages :: m.queue == queue
    ensures ids == IdsIn(messages, queue)
  {
    ids := [];
    for i := 0 to |messages|
      invariant ids == IdsIn(messages[..i], queue)
    {
      assert messages[..i + 1][..i] == messages[..i] && messages[i] in messages;
      ids := ids + [messages[i].id];
    }
    assert messages[..|messages|] == messages;
  }
}
