/** The Redis cache as the cache of the whole system: for queue names without braces, what its
    scripts and chunked calls do to a database is what `System` asks of a cache, so the run theorems
    hold of it as well. `BracedQueues` is about the other names. */
module RedisSystem {
  import opened Pools
  import opened System
  import opened RedisPools
  import opened RedisChunks
  import opened RedisCaches
  import opened RedisKeys
  import MemoryCaches
  import Queues

  /** The pools of `s` are those of the database. */
  ghost predicate Shows(s: Sys, db: Database, prefix: string) {
    forall queue :: s.Pool(queue) == Abs(PoolsAt(db, prefix, queue))
  }

  /** A cache call on one queue is that operation of the system, with the same reply. */
  lemma RedisOperates(s: Sys, db: Database, s': Sys, db': Database, prefix: string, queue: string, op: Op,
                      reply: seq<string>)
    requires ValidDb(db, prefix) && Shows(s, db, prefix) && Shows(s', db', prefix)
    requires Did(db, db', prefix, queue, op, reply)
    ensures Operates(s, queue, op, reply, s')
  {
    hide PoolsAt;
    hide Apply;
    hide Abs;
    hide Step;
    assert Inv(PoolsAt(db, prefix, queue));
    hide Inv;
    Refines(PoolsAt(db, prefix, queue), op);
  }

  // ---------- insertion in chunks ----------

  lemma RunAddFills(z: ZPools, messages: seq<Msg>)
    requires Inv(z)
    ensures Inv(RunAdd(z, messages).0) && Fills(Abs(z), messages, Abs(RunAdd(z, messages).0))
  {
    Refines(z, Insert(messages));
    var t' := Abs(RunAdd(z, messages).0);
    hide RunAdd;
    hide Abs;
    hide Inv;
    InsertedFills(Abs(z), messages);
    assert t' == Inserted(Abs(z), messages);
  }

  lemma FillsTwice(t: Table, a: seq<Msg>, t1: Table, b: seq<Msg>, t2: Table)
    requires Fills(t, a, t1) && Fills(t1, b, t2)
    ensures Fills(t, a + b, t2)
  {
    LatestSplits(a, b);
    hide Latest;
  }

  /** Insertion in chunks of 2000 fills the pool, also when an id appears in two chunks. */
  lemma {:induction false} ChunksFill(z: ZPools, messages: seq<Msg>)
    requires Inv(z)
    ensures Inv(AddChunks(z, messages).0) && Fills(Abs(z), messages, Abs(AddChunks(z, messages).0))
    decreases |messages|
  {
    hide RunAdd;
    hide Abs;
    hide Inv;
    if messages == [] {
      assert Latest([]) == map[];
    } else {
      var c := Size(|messages|);
      var a, b := messages[..c], messages[c..];
      var z1 := RunAdd(z, a).0;
      RunAddFills(z, a);
      ChunksFill(z1, b);
      FillsTwice(Abs(z), a, Abs(z1), b, Abs(AddChunks(z1, b).0));
      assert messages == a + b;
      hide Fills;
    }
  }

  // ---------- a batch, one call per queue ----------

  /** The queues of `done` have taken their part of the batch; no other queue has changed. */
  ghost predicate PartlyInserted(db: Database, db': Database, prefix: string, messages: seq<QueuedMsg>,
                                 done: set<string>)
  {
    forall queue ::
      PoolsAt(db', prefix, queue)
      == if queue in done then AddChunks(PoolsAt(db, prefix, queue), Part(messages, queue)).0
         else PoolsAt(db, prefix, queue)
  }

  predicate AllNamed(messages: seq<QueuedMsg>) {
    forall i | 0 <= i < |messages| :: ValidName(messages[i].queue)
  }

  lemma PartlyInsertedNext(db: Database, db1: Database, db2: Database, prefix: string, messages: seq<QueuedMsg>,
                           done: set<string>, queue: string)
    requires PartlyInserted(db, db1, prefix, messages, done) && queue !in done
    requires Became(db1, db2, prefix, queue, AddChunks(PoolsAt(db1, prefix, queue), Part(messages, queue)).0)
    ensures PartlyInserted(db, db2, prefix, messages, done + {queue})
  {
    hide PoolsAt;
    hide AddChunks;
    hide Part;
  }

  // ---------- the replies of a batch ----------

  /** What the calls for one queue reply. */
  ghost function ReplyOf(db: Database, prefix: string, messages: seq<QueuedMsg>, queue: string): seq<string> {
    AddChunks(PoolsAt(db, prefix, queue), Part(messages, queue)).1
  }

  /** The id at one position of the reply for a queue. */
  datatype Place = Place(queue: string, position: int)

  /** The places of all replies for the given queues. */
  ghost function Replies(db: Database, prefix: string, messages: seq<QueuedMsg>, queues: set<string>): set<Place> {
    set queue, k | queue in queues && 0 <= k < |ReplyOf(db, prefix, messages, queue)| :: Place(queue, k)
  }

  ghost function Positions(queue: string, n: nat): set<Place> {
    set k | 0 <= k < n :: Place(queue, k)
  }

  lemma {:induction false} PositionsSize(queue: string, n: nat)
    ensures |Positions(queue, n)| == n
  {
    if n == 0 {
      assert Positions(queue, 0) == {};
    } else {
      PositionsSize(queue, n - 1);
      assert Positions(queue, n) == Positions(queue, n - 1) + {Place(queue, n - 1)};
    }
  }

  lemma RepliesNext(db: Database, prefix: string, messages: seq<QueuedMsg>, done: set<string>, queue: string)
    requires queue !in done
    ensures |Replies(db, prefix, messages, done + {queue})|
            == |Replies(db, prefix, messages, done)| + |ReplyOf(db, prefix, messages, queue)|
  {
    hide ReplyOf;
    var n := |ReplyOf(db, prefix, messages, queue)|;
    var a, b := Replies(db, prefix, messages, done), Positions(queue, n);
    PositionsSize(queue, n);
    assert Replies(db, prefix, messages, done + {queue}) == a + b && a !! b;
  }

  /** AddMessagesToCacheWithAuditReason over the Redis cache: the queues in no particular order, up
      to the first that the cache rejects. */
  method AddMessagesToCache(cache: RedisCache, messages: seq<QueuedMsg>)
    returns (r: MemoryCaches.Result<int>, ghost done: set<string>)
    requires cache.Valid()
    modifies cache`db
    ensures cache.Valid()
    ensures PartlyInserted(old(cache.db), cache.db, cache.keyPrefix, messages, done)
    ensures forall queue | queue in done :: ValidName(queue)
    ensures r.Ok? <==> AllNamed(messages)
    ensures r.Ok? ==>
              && (forall queue | queue !in done :: Part(messages, queue) == [])
              && r.value == |Replies(old(cache.db), cache.keyPrefix, messages, done)|
  {
    hide PoolsAt;
    hide AddChunks;
    hide Replies;
    hide ReplyOf;
    hide Part;
    hide Queues.Members;
    hide MemoryCaches.Bare;
    hide PartlyInserted;
    hide Became;
    hide ValidDb;
    var groups := Queues.GroupByQueue(messages);
    var count := 0;
    var todo := groups.Keys;
    done := {};
    ghost var db, prefix := cache.db, cache.keyPrefix;
    NothingInserted(db, prefix, messages);
    while todo != {}
      invariant todo <= groups.Keys && done == groups.Keys - todo && cache.Valid()
      invariant PartlyInserted(db, cache.db, prefix, messages, done)
      invariant count == |Replies(db, prefix, messages, done)|
      invariant forall queue | queue in done :: ValidName(queue)
      decreases todo
    {
      var queue :| queue in todo;
      assert Queues.GroupedFor(groups, messages, queue);
      Queues.MembersArePart(messages, queue);
      ghost var before := cache.db;
      var inserted := cache.Insert(queue, groups[queue]);
      if inserted.Err? {
        RejectedName(messages, groups, queue);
        return MemoryCaches.Err(inserted.error), done;
      }
      RepliesWhenAsked(db, before, prefix, messages, done, queue);
      RepliesNext(db, prefix, messages, done, queue);
      PartlyInsertedNext(db, before, cache.db, prefix, messages, done, queue);
      count := count + |inserted.value|;
      todo, done := todo - {queue}, done + {queue};
    }
    AllQueuesDone(messages, groups, done);
    r := MemoryCaches.Ok(count);
  }

  lemma NothingInserted(db: Database, prefix: string, messages: seq<QueuedMsg>)
    ensures PartlyInserted(db, db, prefix, messages, {}) && Replies(db, prefix, messages, {}) == {}
  {
  }

  /** A queue still to do replies as it would have at the start. */
  lemma RepliesWhenAsked(db: Database, db1: Database, prefix: string, messages: seq<QueuedMsg>, done: set<string>,
                         queue: string)
    requires PartlyInserted(db, db1, prefix, messages, done) && queue !in done
    ensures AddChunks(PoolsAt(db1, prefix, queue), Part(messages, queue)).1 == ReplyOf(db, prefix, messages, queue)
  {
    hide PoolsAt;
    hide AddChunks;
    hide Part;
  }

  lemma RejectedName(messages: seq<QueuedMsg>, groups: map<string, seq<QueuedMsg>>, queue: string)
    requires queue in groups && groups[queue] != [] && Queues.GroupedFor(groups, messages, queue) && !ValidName(queue)
    ensures !AllNamed(messages)
  {
    hide ValidName;
    MemberExists(messages, queue);
  }

  lemma {:induction false} MemberExists(messages: seq<QueuedMsg>, queue: string)
    requires Queues.Members(messages, queue) != []
    ensures exists i | 0 <= i < |messages| :: messages[i].queue == queue
  {
    var n := |messages| - 1;
    if messages[n].queue == queue {
    } else {
      MemberExists(messages[..n], queue);
      var i :| 0 <= i < n && messages[..n][i].queue == queue;
      assert messages[i].queue == queue;
    }
  }

  lemma AllQueuesDone(messages: seq<QueuedMsg>, groups: map<string, seq<QueuedMsg>>, done: set<string>)
    requires done == groups.Keys && (forall queue :: Queues.GroupedFor(groups, messages, queue))
    requires forall queue | queue in done :: ValidName(queue)
    ensures AllNamed(messages)
    ensures forall queue | queue !in done :: Part(messages, queue) == []
  {
    hide ValidName;
    forall i | 0 <= i < |messages| ensures messages[i].queue in done {
      assert Queues.GroupedFor(groups, messages, messages[i].queue);
      Queues.HasMember(messages, i);
    }
    forall queue | queue !in done ensures Part(messages, queue) == [] {
      assert Queues.GroupedFor(groups, messages, queue);
      Queues.MembersArePart(messages, queue);
    }
  }

  // ---------- what the system sees of it ----------

  /** The pools of `done` are filled from the batch, the others are as they were. */
  ghost predicate PartlyFills(s: Sys, messages: seq<QueuedMsg>, done: set<string>, s': Sys) {
    forall queue ::
      if queue in done then Fills(s.Pool(queue), Part(messages, queue), s'.Pool(queue))
      else s'.Pool(queue) == s.Pool(queue)
  }

  lemma RedisFills(s: Sys, db: Database, s': Sys, db': Database, prefix: string, messages: seq<QueuedMsg>,
                   done: set<string>)
    requires ValidDb(db, prefix) && Shows(s, db, prefix) && Shows(s', db', prefix)
    requires PartlyInserted(db, db', prefix, messages, done)
    ensures PartlyFills(s, messages, done, s')
  {
    hide PoolsAt;
    hide Abs;
    hide Inv;
    hide AddChunks;
    hide Fills;
    hide Part;
    forall queue
      ensures queue in done ==> Fills(s.Pool(queue), Part(messages, queue), s'.Pool(queue))
      ensures queue !in done ==> s'.Pool(queue) == s.Pool(queue)
    {
      assert Inv(PoolsAt(db, prefix, queue));
      if queue in done {
        ChunksFill(PoolsAt(db, prefix, queue), Part(messages, queue));
      }
    }
  }
}
