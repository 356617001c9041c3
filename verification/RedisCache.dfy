/** The Redis cache: the server's sorted sets by key, the Lua scripts as they run on keys,
    and the cache methods that choose the keys. Every script is atomic. */
module RedisCaches {
  import opened Score
  import opened Pools
  import opened RankedSets
  import opened RedisKeys
  import opened RedisPools
  import opened RedisChunks
  import opened Clock
  import MemoryCaches

  type Result<+T> = MemoryCaches.Result<T>

  type Database = map<string, ZSet>

  /** A key that does not exist is an empty sorted set. */
  function SetAt(db: Database, key: string): ZSet {
    if key in db then db[key] else map[]
  }

  function PoolsAt(db: Database, prefix: string, queue: string): ZPools {
    ZPools(SetAt(db, PoolKey(prefix, queue, ActiveKey)), SetAt(db, PoolKey(prefix, queue, ProcessingKey)),
           SetAt(db, PoolKey(prefix, queue, LockAckKey)), SetAt(db, PoolKey(prefix, queue, LockNackKey)),
           SetAt(db, PoolKey(prefix, queue, AckScoreKey)), SetAt(db, PoolKey(prefix, queue, NackScoreKey)))
  }

  function With(z: ZPools, kind: Kind, s: ZSet): ZPools {
    match kind
    case ActiveKey => z.(active := s)
    case ProcessingKey => z.(processing := s)
    case LockAckKey => z.(lockAck := s)
    case LockNackKey => z.(lockNack := s)
    case AckScoreKey => z.(ackScore := s)
    case NackScoreKey => z.(nackScore := s)
  }

  function LockKey(kind: LockKind): Kind {
    if kind == LockAck then LockAckKey else LockNackKey
  }

  function ScoreKey(kind: LockKind): Kind {
    if kind == LockAck then AckScoreKey else NackScoreKey
  }

  function Get(z: ZPools, kind: Kind): ZSet {
    match kind
    case ActiveKey => z.active
    case ProcessingKey => z.processing
    case LockAckKey => z.lockAck
    case LockNackKey => z.lockNack
    case AckScoreKey => z.ackScore
    case NackScoreKey => z.nackScore
  }

  ghost predicate OnlyKey(db: Database, db': Database, key: string) {
    forall k | k != key :: SetAt(db', k) == SetAt(db, k)
  }

  /** Writing one set of a queue changes that set and nothing else. */
  lemma WriteOne(db: Database, db': Database, prefix: string, queue: string, kind: Kind)
    requires OnlyKey(db, db', PoolKey(prefix, queue, kind))
    ensures Became(db, db', prefix, queue,
                   With(PoolsAt(db, prefix, queue), kind, SetAt(db', PoolKey(prefix, queue, kind))))
    ensures Get(PoolsAt(db, prefix, queue), kind) == SetAt(db, PoolKey(prefix, queue, kind))
  {
    forall other: string, k: Kind | other != queue || k != kind
      ensures SetAt(db', PoolKey(prefix, other, k)) == SetAt(db, PoolKey(prefix, other, k))
    {
      if PoolKey(prefix, other, k) == PoolKey(prefix, queue, kind) {
        KeysInjective(prefix, other, k, queue, kind);
      }
    }
  }

  /** The pools of `queue` became `z` and no other queue changed. */
  ghost predicate Became(db: Database, db': Database, prefix: string, queue: string, z: ZPools) {
    && PoolsAt(db', prefix, queue) == z
    && forall other | other != queue :: PoolsAt(db', prefix, other) == PoolsAt(db, prefix, other)
  }

  ghost predicate ValidDb(db: Database, prefix: string) {
    forall queue :: Inv(PoolsAt(db, prefix, queue))
  }

  lemma StaysValid(db: Database, db': Database, prefix: string, queue: string, op: Op)
    requires ValidDb(db, prefix)
    requires Became(db, db', prefix, queue, Apply(PoolsAt(db, prefix, queue), op).0)
    ensures ValidDb(db', prefix)
  {
    hide Apply;
    forall other ensures Inv(PoolsAt(db', prefix, other)) {
      assert Inv(PoolsAt(db, prefix, other));
      if other == queue {
        Refines(PoolsAt(db, prefix, queue), op);
      }
    }
  }

  lemma OpensIn(db: Database, prefix: string, kind: LockKind, now: nat, queue: string)
    requires ValidDb(db, prefix)
    ensures var (z', ids) := Apply(PoolsAt(db, prefix, queue), MemoryCaches.UnlockAt(kind, now));
            MemoryCaches.Opened(Abs(PoolsAt(db, prefix, queue)), kind, now, ids, Abs(z'))
  {
    var z, op := PoolsAt(db, prefix, queue), MemoryCaches.UnlockAt(kind, now);
    assert Inv(z);
    Refines(z, op);
    hide Abs;
    hide Apply;
    MemoryCaches.UnlockOpens(Abs(z), kind, now, Apply(z, op).1, Abs(Apply(z, op).0));
  }

  class RedisCache {
    const keyPrefix: string
    var db: Database

    constructor (prefix: string)
      ensures keyPrefix == prefix && Valid()
      ensures forall queue :: At(queue) == EMPTY
    {
      keyPrefix := prefix;
      db := map[];
    }

    ghost predicate Valid()
      reads this
    {
      ValidDb(db, keyPrefix)
    }

    ghost function At(queue: string): ZPools
      reads this
    {
      PoolsAt(db, keyPrefix, queue)
    }

    // ---------- server commands on one sorted set of a queue ----------

    method ZScores(queue: string, kind: Kind) returns (s: ZSet)
      ensures s == Get(At(queue), kind)
    {
      s := SetAt(db, PoolKey(keyPrefix, queue, kind));
    }

    method ZAdd(queue: string, kind: Kind, score: real, member: string) returns (created: int)
      modifies `db
      ensures var z := old(At(queue));
              && Became(old(db), db, keyPrefix, queue, With(z, kind, Get(z, kind)[member := score]))
              && created == Created(Get(z, kind), member)
    {
      var key := PoolKey(keyPrefix, queue, kind);
      created := Created(SetAt(db, key), member);
      db := db[key := SetAt(db, key)[member := score]];
      WriteOne(old(db), db, keyPrefix, queue, kind);
    }

    method ZRem(queue: string, kind: Kind, members: seq<string>) returns (removed: int)
      modifies `db
      ensures var z := old(At(queue));
              && Became(old(db), db, keyPrefix, queue, With(z, kind, Get(z, kind) - SetOf(members)))
              && removed == |Get(z, kind).Keys * SetOf(members)|
    {
      var key := PoolKey(keyPrefix, queue, kind);
      removed := |SetAt(db, key).Keys * SetOf(members)|;
      db := db[key := SetAt(db, key) - SetOf(members)];
      WriteOne(old(db), db, keyPrefix, queue, kind);
    }

    /** ZADD of several members in one command: a later score overrides an earlier one. */
    method ZAddAll(queue: string, kind: Kind, members: seq<Msg>)
      modifies `db
      ensures var z := old(At(queue));
              Became(old(db), db, keyPrefix, queue, With(z, kind, Get(z, kind) + Latest(members)))
    {
      hide PoolsAt;
      ghost var z := At(queue);
      WithGet(z, kind);
      for i := 0 to |members|
        invariant Became(old(db), db, keyPrefix, queue, With(z, kind, Get(z, kind) + Latest(members[..i])))
      {
        var _ := ZAdd(queue, kind, members[i].score, members[i].id);
        WithTwice(z, kind, Get(z, kind) + Latest(members[..i]));
        LatestNext(Get(z, kind), members, i);
      }
      assert members[..|members|] == members;
    }

    // ---------- scripts ----------

    /** pullElementsScript and moveFilteredElementsScript after their range query. */
    method MoveAll(queue: string, source: Kind, destination: Kind, elements: seq<string>, score: real)
      requires source != destination
      modifies `db
      ensures Became(old(db), db, keyPrefix, queue, Moved(old(At(queue)), source, destination, elements, score))
    {
      hide PoolsAt;
      ghost var z := At(queue);
      NothingToMove(z, source, destination, score);
      WithGet(z, destination);
      if elements == [] {
        return;
      }
      hide Stamp;
      hide SetOf;
      hide With;
      hide Get;
      assert elements[..0] == [];
      for i := 0 to |elements|
        invariant Became(old(db), db, keyPrefix, queue,
                  With(z, destination, Get(z, destination) + Stamp(elements[..i], score)))
      {
        var _ := ZAdd(queue, destination, score, elements[i]);
        WithTwice(z, destination, Get(z, destination) + Stamp(elements[..i], score));
        StampNext(Get(z, destination), elements, i, score);
      }
      assert elements[..|elements|] == elements;
      GetOther(z, destination, Get(z, destination) + Stamp(elements, score), source);
      var _ := ZRem(queue, source, elements);
    }

    /** moveElementScript. */
    method MoveScript(queue: string, score: real, id: string) returns (reply: int)
      modifies `db
      ensures Became(old(db), db, keyPrefix, queue, RunMove(old(At(queue)), id, score).0)
      ensures reply == RunMove(old(At(queue)), id, score).1
    {
      hide PoolsAt;
      RemovedOne(At(queue).processing, id);
      var removed := ZRem(queue, ProcessingKey, [id]);
      if removed > 0 {
        reply := ZAdd(queue, ActiveKey, score, id);
      } else {
        reply := 0;
      }
    }

    /** lockElementScript. */
    method LockScript(queue: string, kind: LockKind, until: real, id: string, score: real) returns (reply: int)
      modifies `db
      ensures Became(old(db), db, keyPrefix, queue, RunLock(old(At(queue)), id, kind, until, score).0)
      ensures reply == RunLock(old(At(queue)), id, kind, until, score).1
    {
      hide PoolsAt;
      hide Created;
      RemovedOne(At(queue).processing, id);
      var removed := ZRem(queue, ProcessingKey, [id]);
      if removed > 0 {
        reply := HoldScript(queue, kind, until, id, score);
      } else {
        reply := 0;
      }
    }

    /** The part of lockElementScript after the removal. */
    method HoldScript(queue: string, kind: LockKind, until: real, id: string, score: real) returns (reply: int)
      modifies `db
      ensures var z := old(At(queue));
              var locks, scores := z.Locks(kind), z.LockScores(kind);
              if score == UNDEFINED then
                Became(old(db), db, keyPrefix, queue, z.WithLocks(kind, locks[id := until], scores))
                && reply == Created(locks, id)
              else
                Became(old(db), db, keyPrefix, queue, z.WithLocks(kind, locks[id := until], scores[id := score]))
                && reply == Created(scores, id)
    {
      hide PoolsAt;
      hide Created;
      reply := ZAdd(queue, LockKey(kind), until, id);
      if score != UNDEFINED {
        reply := ZAdd(queue, ScoreKey(kind), score, id);
      }
    }

    /** unlockElementsScript. */
    method UnlockScript(queue: string, kind: LockKind, now: real, fallback: real) returns (elements: seq<string>)
      modifies `db
      ensures Became(old(db), db, keyPrefix, queue, RunUnlock(old(At(queue)), kind, now, fallback).0)
      ensures elements == RunUnlock(old(At(queue)), kind, now, fallback).1
    {
      hide PoolsAt;
      hide RevRangeByScore;
      hide UnlockScores;
      hide SetOf;
      var locks := ZScores(queue, LockKey(kind));
      elements := RevRangeByScore(locks, now, 0.0, HOUSEKEEPING_BATCH);
      if elements == [] {
        NothingToUnlock(At(queue), kind, fallback);
        return;
      }
      ReleaseScript(queue, kind, elements, fallback);
    }

    /** The part of unlockElementsScript after the range query. */
    method ReleaseScript(queue: string, kind: LockKind, elements: seq<string>, fallback: real)
      modifies `db
      ensures var z := old(At(queue));
              var locks, scores := z.Locks(kind), z.LockScores(kind);
              Became(old(db), db, keyPrefix, queue,
                     z.(active := z.active + UnlockScores(scores, elements, fallback))
                     .WithLocks(kind, locks - SetOf(elements), scores - SetOf(elements)))
    {
      hide PoolsAt;
      hide UnlockScores;
      hide Latest;
      hide SetOf;
      var scores := ZScores(queue, ScoreKey(kind));
      var bulkData := BulkData(scores, elements, fallback);
      ZAddAll(queue, ActiveKey, bulkData);
      var _ := ZRem(queue, LockKey(kind), elements);
      var _ := ZRem(queue, ScoreKey(kind), elements);
    }

    /** addElementsScript. */
    method AddScript(queue: string, messages: seq<Msg>) returns (inserted: seq<string>)
      modifies `db
      ensures Became(old(db), db, keyPrefix, queue, RunAdd(old(At(queue)), messages).0)
      ensures inserted == RunAdd(old(At(queue)), messages).1
    {
      hide PoolsAt;
      var toInsert: seq<Msg> := [];
      inserted := [];
      for i := 0 to |messages|
        invariant db == old(db)
        invariant toInsert == Fresh(At(queue), messages[..i])
        invariant inserted == Names(toInsert)
      {
        var present := ExistsInPools(queue, messages[i].id);
        assert messages[..i + 1][..i] == messages[..i];
        if !present {
          assert Names(toInsert + [messages[i]]) == Names(toInsert) + [messages[i].id];
          toInsert := toInsert + [messages[i]];
          inserted := inserted + [messages[i].id];
        }
      }
      assert messages[..|messages|] == messages;
      hide Fresh;
      if |toInsert| == 0 {
        assert At(queue).active + Latest([]) == At(queue).active;
        return;
      }
      ZAddAll(queue, ActiveKey, toInsert);
    }

    method ExistsInPools(queue: string, id: string) returns (found: bool)
      ensures found <==> At(queue).Exists(id)
    {
      hide PoolsAt;
      var pools := [ActiveKey, LockNackKey, LockAckKey, ProcessingKey];
      for i := 0 to |pools|
        invariant forall j | 0 <= j < i :: id !in Get(At(queue), pools[j])
      {
        var s := ZScores(queue, pools[i]);
        if id in s {
          return true;
        }
      }
      assert pools[0] == ActiveKey && pools[1] == LockNackKey && pools[2] == LockAckKey && pools[3] == ProcessingKey;
      return false;
    }

    /** removeElementScript over the six keys. */
    method RemoveScript(queue: string, ids: seq<string>) returns (total: int)
      modifies `db
      ensures Became(old(db), db, keyPrefix, queue, RunRemove(old(At(queue)), ids))
      ensures total == Removed(old(At(queue)), ids)
    {
      hide PoolsAt;
      var pools := KINDS;
      total := 0;
      for i := 0 to |pools|
        invariant Became(old(db), db, keyPrefix, queue, RemovedSoFar(old(At(queue)), ids, i))
        invariant total == CountSoFar(old(At(queue)), ids, i)
      {
        UntouchedYet(old(At(queue)), ids, i);
        var count := ZRem(queue, pools[i], ids);
        total := total + count;
      }
      AllSixRemoved(old(At(queue)), ids);
    }

    // ---------- the cache interface ----------

    method MakeAvailable(queue: string, id: string, score: real) returns (r: Result<bool>)
      requires Valid()
      modifies `db
      ensures Valid()
      ensures r.Err? <==> queue == "" || !ValidName(queue)
      ensures r.Err? ==> unchanged(this)
      ensures r.Ok? ==> Did(old(db), db, keyPrefix, queue, Pools.MakeAvailable(id, score), if r.value then [id] else [])
    {
      if queue == "" {
        return MemoryCaches.Err("invalid message queue");
      }
      if !ValidName(queue) {
        return MemoryCaches.Err("queue names cannot contain braces");
      }
      var reply := MoveScript(queue, score, id);
      StaysValid(old(db), db, keyPrefix, queue, Pools.MakeAvailable(id, score));
      r := MemoryCaches.Ok(reply == 1);
    }

    method LockMessage(queue: string, id: string, score: real, lockMs: int, kind: LockKind, now: nat)
      returns (r: Result<bool>)
      requires Valid()
      modifies `db
      ensures Valid()
      ensures r.Err? <==> queue == "" || !ValidName(queue) || lockMs <= 0
      ensures r.Err? ==> unchanged(this)
      ensures r.Ok? ==> Did(old(db), db, keyPrefix, queue, Lock(id, kind, (Ms(now) + lockMs) as real, score),
                            if r.value then [id] else [])
    {
      if queue == "" {
        return MemoryCaches.Err("invalid queue to lock");
      }
      if !ValidName(queue) {
        return MemoryCaches.Err("queue names cannot contain braces");
      }
      if lockMs <= 0 {
        return MemoryCaches.Err("invalid lock time");
      }
      var reply := LockScript(queue, kind, (Ms(now) + lockMs) as real, id, score);
      StaysValid(old(db), db, keyPrefix, queue, Lock(id, kind, (Ms(now) + lockMs) as real, score));
      r := MemoryCaches.Ok(reply == 1);
    }

    method UnlockMessages(queue: string, kind: LockKind, now: nat) returns (r: Result<seq<string>>)
      requires Valid()
      modifies `db
      ensures Valid()
      ensures r.Err? <==> !ValidName(queue)
      ensures r.Err? ==> unchanged(this)
      ensures r.Ok? ==> Did(old(db), db, keyPrefix, queue, MemoryCaches.UnlockAt(kind, now), r.value)
      ensures r.Ok? ==> MemoryCaches.Opened(Abs(old(At(queue))), kind, now, r.value, Abs(At(queue)))
    {
      if !ValidName(queue) {
        return MemoryCaches.Err("queue names cannot contain braces");
      }
      var op := MemoryCaches.UnlockAt(kind, now);
      var ids := UnlockScript(queue, kind, op.now, op.fallback);
      StaysValid(old(db), db, keyPrefix, queue, op);
      OpensIn(old(db), keyPrefix, kind, now, queue);
      r := MemoryCaches.Ok(ids);
    }

    method PullMessages(queue: string, n: int, min: Option<real>, max: Option<real>, ackDeadlineMs: int, now: nat)
      returns (r: Result<seq<string>>)
      requires Valid()
      modifies `db
      ensures Valid()
      ensures r.Err? <==> !ValidName(queue)
      ensures r.Err? ==> unchanged(this)
      ensures r.Ok? ==> Did(old(db), db, keyPrefix, queue, Pull(n, min, max, RedisDeadline(now, ackDeadlineMs)),
              r.value)
    {
      if !ValidName(queue) {
        return MemoryCaches.Err("queue names cannot contain braces");
      }
      var active := ZScores(queue, ActiveKey);
      var elements := PullElements(active, n, min, max);
      MoveAll(queue, ActiveKey, ProcessingKey, elements, RedisDeadline(now, ackDeadlineMs));
      StaysValid(old(db), db, keyPrefix, queue, Pull(n, min, max, RedisDeadline(now, ackDeadlineMs)));
      r := MemoryCaches.Ok(elements);
    }

    method TimeoutMessages(queue: string, now: nat) returns (r: Result<seq<string>>)
      requires Valid()
      modifies `db
      ensures Valid()
      ensures r.Err? <==> !ValidName(queue)
      ensures r.Err? ==> unchanged(this)
      ensures r.Ok? ==> Did(old(db), db, keyPrefix, queue, Timeout(Ms(now) as real), r.value)
    {
      if !ValidName(queue) {
        return MemoryCaches.Err("queue names cannot contain braces");
      }
      var processing := ZScores(queue, ProcessingKey);
      var elements := RevRangeByScore(processing, Ms(now) as real, 0.0, HOUSEKEEPING_BATCH);
      MoveAll(queue, ProcessingKey, ActiveKey, elements, MIN);
      StaysValid(old(db), db, keyPrefix, queue, Timeout(Ms(now) as real));
      r := MemoryCaches.Ok(elements);
    }

    /** Removes in chunks; the outcome is that of one unchunked call. */
    method Remove(queue: string, ids: seq<string>) returns (r: Result<int>)
      requires Valid()
      modifies `db
      ensures Valid()
      ensures r.Err? <==> !ValidName(queue)
      ensures r.Err? ==> unchanged(this)
      ensures r.Ok? ==> Did(old(db), db, keyPrefix, queue, Pools.Remove(ids), [])
      ensures r.Ok? ==> r.value == Removed(old(At(queue)), ids)
    {
      if !ValidName(queue) {
        return MemoryCaches.Err("queue names cannot contain braces");
      }
      hide PoolsAt;
      hide RunRemove;
      hide Removed;
      hide Inv;
      hide Became;
      hide ValidDb;
      hide Did;
      var total := RemoveChunks(queue, ids);
      RemovalDid(old(db), db, keyPrefix, queue, ids);
      r := MemoryCaches.Ok(total);
    }

    method RemoveChunks(queue: string, ids: seq<string>) returns (total: int)
      modifies `db
      ensures Became(old(db), db, keyPrefix, queue, RunRemove(old(At(queue)), ids))
      ensures total == Removed(old(At(queue)), ids)
    {
      hide PoolsAt;
      hide RunRemove;
      hide Removed;
      ghost var z := At(queue);
      NothingRemoved(z);
      var low := 0;
      total := 0;
      while low < |ids|
        invariant 0 <= low <= |ids|
        invariant Became(old(db), db, keyPrefix, queue, RunRemove(z, ids[..low]))
        invariant total == Removed(z, ids[..low])
      {
        var high := if low + REMOVE_CHUNK < |ids| then low + REMOVE_CHUNK else |ids|;
        var count := RemoveScript(queue, ids[low..high]);
        RemoveSplits(z, ids[..low], ids[low..high]);
        assert ids[..high] == ids[..low] + ids[low..high];
        total := total + count;
        low := high;
      }
      assert ids[..low] == ids;
    }

    /** Inserts in chunks; ChunkingIsInvisibleIff says when that is one unchunked call. */
    method Insert(queue: string, messages: seq<QueuedMsg>) returns (r: Result<seq<string>>)
      requires Valid()
      modifies `db
      ensures Valid()
      ensures r.Err? <==> '{' in queue || '}' in queue || exists m :: m in messages && m.queue != queue
      ensures r.Err? ==> unchanged(this)
      ensures r.Ok? ==>
                && Became(old(db), db, keyPrefix, queue, AddChunks(old(At(queue)), MemoryCaches.Bare(messages)).0)
                && r.value == AddChunks(old(At(queue)), MemoryCaches.Bare(messages)).1
    {
      if !ValidName(queue) {
        return MemoryCaches.Err("queue names cannot contain braces");
      }
      for i := 0 to |messages|
        invariant forall j | 0 <= j < i :: messages[j].queue == queue
      {
        if messages[i].queue != queue {
          assert messages[i] in messages;
          return MemoryCaches.Err("invalid queue to insert data");
        }
      }
      var ids := InsertChunks(queue, MemoryCaches.Bare(messages));
      r := MemoryCaches.Ok(ids);
    }

    method InsertChunks(queue: string, messages: seq<Msg>) returns (insertions: seq<string>)
      requires Valid()
      modifies `db
      ensures Valid()
      ensures Became(old(db), db, keyPrefix, queue, AddChunks(old(At(queue)), messages).0)
      ensures insertions == AddChunks(old(At(queue)), messages).1
    {
      hide PoolsAt;
      hide RunAdd;
      hide Inv;
      ghost var z := At(queue);
      insertions := [];
      var low := 0;
      assert messages[0..] == messages && [] + AddChunks(z, messages).1 == AddChunks(z, messages).1;
      while low < |messages|
        invariant 0 <= low <= |messages|
        invariant Valid()
        invariant Became(old(db), db, keyPrefix, queue, At(queue))
        invariant AddChunks(z, messages)
               == (AddChunks(At(queue), messages[low..]).0, insertions + AddChunks(At(queue), messages[low..]).1)
      {
        var high := if low + INSERT_CHUNK < |messages| then low + INSERT_CHUNK else |messages|;
        ghost var before := db;
        ghost var rest := messages[low..];
        assert rest[..Size(|rest|)] == messages[low..high] && rest[Size(|rest|)..] == messages[high..];
        var inserts := AddScript(queue, messages[low..high]);
        StaysValid(before, db, keyPrefix, queue, Pools.Insert(messages[low..high]));
        ghost var later := AddChunks(At(queue), messages[high..]);
        assert insertions + (inserts + later.1) == insertions + inserts + later.1;
        insertions := insertions + inserts;
        low := high;
      }
      assert insertions + [] == insertions;
    }
  }

  /** RedisCache's processing deadline, in milliseconds on both sides. */
  function RedisDeadline(now: nat, ackDeadlineMs: int): real {
    (Ms(now) + if ackDeadlineMs == 0 then DEFAULT_TIMEOUT_MS else ackDeadlineMs) as real
  }

  /** Operation `op` ran on `queue` with this reply, and nothing else changed. */
  ghost predicate Did(db: Database, db': Database, prefix: string, queue: string, op: Op, reply: seq<string>) {
    && Became(db, db', prefix, queue, Apply(PoolsAt(db, prefix, queue), op).0)
    && reply == Apply(PoolsAt(db, prefix, queue), op).1
  }

  lemma RemovalDid(db: Database, db': Database, prefix: string, queue: string, ids: seq<string>)
    requires ValidDb(db, prefix) && Became(db, db', prefix, queue, RunRemove(PoolsAt(db, prefix, queue), ids))
    ensures Did(db, db', prefix, queue, Pools.Remove(ids), []) && ValidDb(db', prefix)
  {
    hide PoolsAt;
    hide RunRemove;
    hide ValidDb;
    hide Became;
    StaysValid(db, db', prefix, queue, Pools.Remove(ids));
  }

  lemma NoneGone(s: ZSet)
    ensures s - SetOf([]) == s && |s.Keys * SetOf([])| == 0
  {
    assert SetOf([]) == {};
    assert s.Keys * {} == {};
  }

  lemma NothingRemoved(z: ZPools)
    ensures RunRemove(z, []) == z && Removed(z, []) == 0
  {
    NoneGone(z.active);
    NoneGone(z.processing);
    NoneGone(z.lockAck);
    NoneGone(z.lockNack);
    NoneGone(z.ackScore);
    NoneGone(z.nackScore);
  }

  const KINDS: seq<Kind> := [ActiveKey, ProcessingKey, LockAckKey, LockNackKey, AckScoreKey, NackScoreKey]

  function RemovedSoFar(z: ZPools, ids: seq<string>, n: nat): ZPools
    requires n <= |KINDS|
  {
    if n == 0 then z
    else
      var before := RemovedSoFar(z, ids, n - 1);
      With(before, KINDS[n - 1], Get(before, KINDS[n - 1]) - SetOf(ids))
  }

  function CountSoFar(z: ZPools, ids: seq<string>, n: nat): int
    requires n <= |KINDS|
  {
    if n == 0 then 0 else CountSoFar(z, ids, n - 1) + |Get(z, KINDS[n - 1]).Keys * SetOf(ids)|
  }

  lemma UntouchedYet(z: ZPools, ids: seq<string>, n: nat)
    requires n < |KINDS|
    ensures Get(RemovedSoFar(z, ids, n), KINDS[n]) == Get(z, KINDS[n])
  {
    if n > 0 { UntouchedBefore(z, ids, n, n); }
  }

  lemma {:induction false} UntouchedBefore(z: ZPools, ids: seq<string>, n: nat, k: nat)
    requires n <= k < |KINDS|
    ensures Get(RemovedSoFar(z, ids, n), KINDS[k]) == Get(z, KINDS[k])
  {
    if n == 0 {
    } else {
      UntouchedBefore(z, ids, n - 1, k);
    }
  }

  lemma AllSixRemoved(z: ZPools, ids: seq<string>)
    ensures RemovedSoFar(z, ids, 6) == RunRemove(z, ids)
    ensures CountSoFar(z, ids, 6) == Removed(z, ids)
  {
    var gone := SetOf(ids);
    var r1 := z.(active := z.active - gone);
    var r2 := r1.(processing := z.processing - gone);
    var r3 := r2.(lockAck := z.lockAck - gone);
    var r4 := r3.(lockNack := z.lockNack - gone);
    var r5 := r4.(ackScore := z.ackScore - gone);
    assert RemovedSoFar(z, ids, 0) == z;
    assert RemovedSoFar(z, ids, 1) == r1;
    assert RemovedSoFar(z, ids, 2) == r2;
    assert RemovedSoFar(z, ids, 3) == r3;
    assert RemovedSoFar(z, ids, 4) == r4;
    assert RemovedSoFar(z, ids, 5) == r5;
    CountSix(z, ids);
  }

  lemma CountSix(z: ZPools, ids: seq<string>)
    ensures CountSoFar(z, ids, 6) == Removed(z, ids)
  {
    var gone := SetOf(ids);
    assert CountSoFar(z, ids, 0) == 0;
    assert CountSoFar(z, ids, 1) == |z.active.Keys * gone|;
    var c2 := CountSoFar(z, ids, 2);
    assert c2 == |z.active.Keys * gone| + |z.processing.Keys * gone|;
    var c3 := CountSoFar(z, ids, 3);
    assert c3 == c2 + |z.lockAck.Keys * gone|;
    var c4 := CountSoFar(z, ids, 4);
    assert c4 == c3 + |z.lockNack.Keys * gone|;
    var c5 := CountSoFar(z, ids, 5);
    assert c5 == c4 + |z.ackScore.Keys * gone|;
  }

  lemma LatestNext(s: ZSet, members: seq<Msg>, i: nat)
    requires i < |members|
    ensures (s + Latest(members[..i]))[members[i].id := members[i].score] == s + Latest(members[..i + 1])
  {
    assert members[..i + 1][..i] == members[..i];
  }

  lemma WithGet(z: ZPools, kind: Kind)
    ensures With(z, kind, Get(z, kind) + Latest([])) == z
    ensures forall score :: With(z, kind, Get(z, kind) + Stamp([], score)) == z
  {
    assert Get(z, kind) + Latest([]) == Get(z, kind);
    forall score ensures Get(z, kind) + Stamp([], score) == Get(z, kind) { }
  }

  lemma GetOther(z: ZPools, kind: Kind, s: ZSet, other: Kind)
    requires kind != other
    ensures Get(With(z, kind, s), other) == Get(z, other)
  {
  }

  lemma WithTwice(z: ZPools, kind: Kind, s: ZSet)
    ensures Get(With(z, kind, s), kind) == s
    ensures forall t :: With(With(z, kind, s), kind, t) == With(z, kind, t)
  {
  }

  lemma StampNext(s: ZSet, elements: seq<string>, i: nat, score: real)
    requires i < |elements|
    ensures (s + Stamp(elements[..i], score))[elements[i] := score] == s + Stamp(elements[..i + 1], score)
  {
    assert elements[..i + 1] == elements[..i] + [elements[i]];
    assert Stamp(elements[..i + 1], score) == Stamp(elements[..i], score)[elements[i] := score];
  }

  lemma RemovedOne(s: ZSet, id: string)
    ensures |s.Keys * SetOf([id])| == if id in s then 1 else 0
    ensures s - SetOf([id]) == if id in s then s - {id} else s
  {
    assert SetOf([id]) == {id};
    assert s.Keys * {id} == if id in s then {id} else {};
  }

  /** The bulkData table of the unlock script. */
  method BulkData(scores: ZSet, elements: seq<string>, fallback: real) returns (bulk: seq<Msg>)
    ensures Latest(bulk) == UnlockScores(scores, elements, fallback)
  {
    bulk := [];
    for i := 0 to |elements|
      invariant Latest(bulk) == UnlockScores(scores, elements[..i], fallback)
    {
      var key := elements[i];
      var lockScore := if key in scores then scores[key] else fallback;
      ghost var before := bulk;
      bulk := bulk + [Msg(key, lockScore)];
      assert bulk[..|bulk| - 1] == before;
      assert elements[..i + 1] == elements[..i] + [key];
      assert UnlockScores(scores, elements[..i + 1], fallback)
          == UnlockScores(scores, elements[..i], fallback)[key := lockScore];
    }
    assert elements[..|elements|] == elements;
  }

  lemma NothingToUnlock(z: ZPools, kind: LockKind, fallback: real)
    ensures z.(active := z.active + UnlockScores(z.LockScores(kind), [], fallback))
            .WithLocks(kind, z.Locks(kind) - SetOf([]), z.LockScores(kind) - SetOf([])) == z
  {
    assert z.active + UnlockScores(z.LockScores(kind), [], fallback) == z.active;
    assert z.Locks(kind) - SetOf([]) == z.Locks(kind);
    assert z.LockScores(kind) - SetOf([]) == z.LockScores(kind);
  }

  function Moved(z: ZPools, source: Kind, destination: Kind, elements: seq<string>, score: real): ZPools {
    With(With(z, destination, Get(z, destination) + Stamp(elements, score)), source, Get(z, source) - SetOf(elements))
  }

  lemma NothingToMove(z: ZPools, source: Kind, destination: Kind, score: real)
    requires source != destination
    ensures Moved(z, source, destination, [], score) == z
  {
    assert Get(z, destination) + Stamp([], score) == Get(z, destination);
    assert Get(z, source) - SetOf([]) == Get(z, source);
  }
}
