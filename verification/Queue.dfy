/** The queue layer (queue.go): every method sequences storage and cache calls, and is proved
    to take the system from one snapshot to the next as `System` says. */
module Queues {
  import opened Score
  import opened Pools
  import opened StorageModel
  import opened RecoveryKeys
  import opened Clock
  import opened System
  import M = MemoryPools
  import EntryLists
  import opened MemoryCaches
  import opened MemoryStorages
  import opened PoolRuns
  import opened MemoryRuns

  // ---------- the tables of an in-memory cache ----------

  function TablesOf(store: Store): map<string, Table> {
    map q | q in store.queues.Keys + store.processingQueues.Keys + store.lockAckQueues.Keys + store.lockNackQueues.Keys
      :: M.Abs(store.At(q))
  }

  lemma PoolIsAbs(shelf: Shelf, store: Store, keys: Keys, queue: string)
    ensures Sys(shelf, TablesOf(store), keys).Pool(queue) == M.Abs(store.At(queue))
  {
    if queue !in TablesOf(store) {
      AbsOfEmpty();
      hide M.Abs;
      assert store.At(queue) == M.EMPTY;
    } else {
      hide M.Abs;
    }
  }

  lemma AbsOfEmpty()
    ensures M.Abs(M.EMPTY) == map[]
  {
  }

  lemma PoolSize(shelf: Shelf, store: Store, keys: Keys, queue: string)
    requires store.Valid()
    ensures |Sys(shelf, TablesOf(store), keys).Pool(queue)| == Size(store.At(queue))
  {
    PoolIsAbs(shelf, store, keys, queue);
    assert M.Inv(store.At(queue));
    SizeOfTable(store.At(queue));
  }

  lemma InsertedByStep(t: Table, messages: seq<Msg>, ids: seq<string>, t': Table)
    requires Step(t, Pools.Insert(messages), ids, t')
    ensures t' == Inserted(t, messages)
  {
  }

  // ---------- grouping a batch by queue ----------

  function Members(messages: seq<QueuedMsg>, queue: string): seq<QueuedMsg> {
    if messages == [] then []
    else
      var n := |messages| - 1;
      Members(messages[..n], queue) + if messages[n].queue == queue then [messages[n]] else []
  }

  lemma {:induction false} MembersArePart(messages: seq<QueuedMsg>, queue: string)
    ensures Bare(Members(messages, queue)) == Part(messages, queue)
    ensures forall m | m in Members(messages, queue) :: m.queue == queue
  {
    if messages == [] {
    } else {
      var n := |messages| - 1;
      MembersArePart(messages[..n], queue);
    }
  }

  predicate GroupedFor(groups: map<string, seq<QueuedMsg>>, messages: seq<QueuedMsg>, queue: string) {
    Members(messages, queue) == if queue in groups then groups[queue] else []
  }

  lemma MembersNext(messages: seq<QueuedMsg>, i: nat, queue: string)
    requires i < |messages|
    ensures Members(messages[..i + 1], queue)
            == if messages[i].queue == queue then Members(messages[..i], queue) + [messages[i]]
               else Members(messages[..i], queue)
  {
    assert messages[..i + 1][..i] == messages[..i];
  }

  method GroupByQueue(messages: seq<QueuedMsg>) returns (groups: map<string, seq<QueuedMsg>>)
    ensures forall queue :: GroupedFor(groups, messages, queue)
    ensures forall queue | queue in groups :: groups[queue] != []
  {
    groups := map[];
    for i := 0 to |messages|
      invariant forall queue :: GroupedFor(groups, messages[..i], queue)
      invariant forall queue | queue in groups :: groups[queue] != []
    {
      var m := messages[i];
      var queueMessages := if m.queue in groups then groups[m.queue] else [];
      ghost var before, next := groups, messages[..i + 1];
      groups := groups[m.queue := queueMessages + [m]];
      forall queue ensures GroupedFor(groups, next, queue) {
        assert GroupedFor(before, messages[..i], queue);
        MembersNext(messages, i, queue);
      }
    }
    assert messages[..|messages|] == messages;
  }

  // ---------- ids a query did not find ----------

  function Missing(ids: seq<string>, messages: seq<Doc>): seq<string> {
    if ids == [] then []
    else
      var n := |ids| - 1;
      Missing(ids[..n], messages) + if IdOf(messages, ids[n]) then [] else [ids[n]]
  }

  predicate IdOf(messages: seq<Doc>, id: string) {
    exists i | 0 <= i < |messages| :: messages[i].id == id
  }

  lemma {:induction false} MissingMembers(ids: seq<string>, messages: seq<Doc>)
    ensures forall id :: id in Missing(ids, messages) <==> id in ids && !IdOf(messages, id)
  {
    if ids == [] {
    } else {
      MissingMembers(ids[..|ids| - 1], messages);
      assert ids == ids[..|ids| - 1] + [ids[|ids| - 1]];
    }
  }

  method NotFoundIds(ids: seq<string>, messages: seq<Doc>) returns (notFound: seq<string>)
    ensures notFound == Missing(ids, messages)
  {
    var found: set<string> := {};
    for i := 0 to |messages|
      invariant forall id :: id in found <==> exists j | 0 <= j < i :: messages[j].id == id
    {
      found := found + {messages[i].id};
    }
    notFound := [];
    for i := 0 to |ids|
      invariant notFound == Missing(ids[..i], messages)
    {
      assert ids[..i + 1][..i] == ids[..i];
      assert ids[i] in found <==> IdOf(messages, ids[i]);
      if ids[i] !in found {
        notFound := notFound + [ids[i]];
      }
    }
    assert ids[..|ids|] == ids;
  }

  // ---------- the limit of a lookup by ids ----------

  function LookupFilter(queue: string, ids: seq<string>): Filter {
    Filter(queue, ids, None, None, None)
  }

  function JoinedIds(queue: string, ids: seq<string>): set<string> {
    set i | 0 <= i < |ids| :: JoinKey(queue, ids[i])
  }

  lemma {:induction false} SizeOfJoined(queue: string, ids: seq<string>)
    ensures |JoinedIds(queue, ids)| <= |ids|
  {
    if ids == [] {
    } else {
      var n := |ids| - 1;
      SizeOfJoined(queue, ids[..n]);
      assert JoinedIds(queue, ids) == JoinedIds(queue, ids[..n]) + {JoinKey(queue, ids[n])} by {
        forall i | 0 <= i < n ensures JoinKey(queue, ids[i]) in JoinedIds(queue, ids[..n])
          { assert ids[..n][i] == ids[i]; }
      }
    }
  }

  lemma MatchesFitLimit(docs: Docs, now: int, queue: string, ids: seq<string>)
    requires WellKeyed(docs) && queue != "" && ids != []
    ensures |SelectedKeys(docs, LookupFilter(queue, ids), now)| <= |ids|
  {
    var sel := SelectedKeys(docs, LookupFilter(queue, ids), now);
    SizeOfJoined(queue, ids);
    forall k | k in sel ensures k in JoinedIds(queue, ids) {
      var i :| 0 <= i < |ids| && ids[i] == docs[k].id;
      assert k == JoinKey(queue, ids[i]);
    }
    SubsetSize(sel, JoinedIds(queue, ids));
  }

  /** A lookup limited to the number of ids never cuts off a matching document. */
  lemma LimitNeverCuts(docs: Docs, now: int, queue: string, ids: seq<string>, res: seq<Doc>)
    requires WellKeyed(docs) && queue != "" && ids != []
    requires Answers(docs, now, LookupFilter(queue, ids), ByScore, |ids|, res)
    ensures Complete(docs, now, LookupFilter(queue, ids), res)
  {
    var f := LookupFilter(queue, ids);
    var sel := SelectedKeys(docs, f, now);
    MatchesFitLimit(docs, now, queue, ids);
    AnswerSize(docs, now, f, ByScore, |ids|, res);
    SubsetSize(KeysOf(res), sel);
    assert sel - KeysOf(res) == {};
    forall d | Stored(docs, d) && Selected(d, f, now) ensures d in res {
      assert KeyOf(d) in sel;
      KeysInAnswer(docs, res, KeyOf(d));
    }
  }

  /** After a lookup, exactly the ids without a live document of the queue are missing. */
  lemma LookupFinds(docs: Docs, now: int, queue: string, ids: seq<string>, res: seq<Doc>, id: string)
    requires WellKeyed(docs) && queue != "" && id in ids
    requires Answers(docs, now, LookupFilter(queue, ids), ByScore, |ids|, res)
    ensures IdOf(res, id) <==> exists d :: Stored(docs, d) && d.queue == queue && d.id == id && Live(d, now)
  {
    LimitNeverCuts(docs, now, queue, ids, res);
    if d :| Stored(docs, d) && d.queue == queue && d.id == id && Live(d, now) {
      assert Selected(d, LookupFilter(queue, ids), now);
      assert d in res;
      var i :| 0 <= i < |res| && res[i] == d;
      assert res[i].id == id;
    }
    if i :| 0 <= i < |res| && res[i].id == id {
      assert res[i] in res;
    }
  }

  /** What a pull answers for the ids it took: the documents found at either read, each once,
      in ascending stored score. */
  ghost predicate PullAnswer(docs: Docs, queue: string, ids: seq<string>, now: nat, retryAt: nat, messages: seq<Doc>) {
    && (forall i, j | 0 <= i < j < |messages| :: messages[i].score <= messages[j].score) && DistinctDocs(messages)
    && (forall d | d in messages ::
          Stored(docs, d) && d.queue == queue && d.id in ids && (Live(d, now) || Live(d, retryAt)))
    && (forall id | id in ids :: IdOf(messages, id) <==> Found(docs, queue, id, now, retryAt))
  }

  /** The first read and the retry look for disjoint ids. */
  lemma JoinReads(docs: Docs, queue: string, ids: seq<string>, now: nat, retryAt: nat, first: seq<Doc>,
                  retry: seq<Doc>, all: seq<Doc>)
    requires WellKeyed(docs) && queue != "" && Missing(ids, first) != []
    requires Answers(docs, now, LookupFilter(queue, ids), ByScore, |ids|, first)
    requires Answers(docs, retryAt, LookupFilter(queue, Missing(ids, first)), ByScore, |Missing(ids, first)|, retry)
    requires SortedBy(ByScore, all) && multiset(all) == multiset(first + retry)
    ensures PullAnswer(docs, queue, ids, now, retryAt, all)
    ensures SetOf(Missing(Missing(ids, first), retry)) == Purged(docs, queue, ids, now, retryAt)
  {
    var missing := Missing(ids, first);
    MissingMembers(ids, first);
    MissingMembers(missing, retry);
    DisjointReads(first, retry, ids, missing);
    DistinctByCount(first + retry, all);
    forall id | id in ids
      ensures IdOf(all, id) <==> Found(docs, queue, id, now, retryAt)
      ensures id in Missing(missing, retry) <==> !Found(docs, queue, id, now, retryAt)
    {
      LookupFinds(docs, now, queue, ids, first, id);
      if id in missing {
        LookupFinds(docs, retryAt, queue, missing, retry, id);
      }
      IdOfJoined(first, retry, all, id);
      RetryOnlyMissing(retry, missing, id);
    }
  }

  lemma AnsweredInOrder(docs: Docs, queue: string, ids: seq<string>, now: nat, retryAt: nat, messages: seq<Doc>)
    requires PullAnswer(docs, queue, ids, now, retryAt, messages)
    ensures forall i, j | 0 <= i < j < |messages| :: messages[i].score <= messages[j].score
  {
  }

  lemma AnswerIsSorted(docs: Docs, now: int, f: Filter, limit: nat, messages: seq<Doc>)
    requires Answers(docs, now, f, ByScore, limit, messages)
    ensures SortedBy(ByScore, messages)
  {
  }

  lemma DisjointReads(first: seq<Doc>, retry: seq<Doc>, ids: seq<string>, missing: seq<string>)
    requires DistinctDocs(first) && DistinctDocs(retry) && missing == Missing(ids, first)
    requires forall d | d in retry :: d.id in missing
    ensures DistinctDocs(first + retry)
  {
    MissingMembers(ids, first);
    forall i, j | 0 <= i < |first| && 0 <= j < |retry| ensures first[i] != retry[j] {
      assert retry[j] in retry;
    }
  }

  lemma IdOfJoined(first: seq<Doc>, retry: seq<Doc>, all: seq<Doc>, id: string)
    requires forall d :: d in first + retry <==> d in all
    ensures IdOf(all, id) <==> IdOf(first, id) || IdOf(retry, id)
  {
    forall i | 0 <= i < |all| && all[i].id == id ensures IdOf(first, id) || IdOf(retry, id) {
      assert all[i] in first + retry;
    }
    forall i | 0 <= i < |first| && first[i].id == id ensures IdOf(all, id) {
      assert first[i] in first + retry;
      var j :| 0 <= j < |all| && all[j] == first[i];
    }
    forall i | 0 <= i < |retry| && retry[i].id == id ensures IdOf(all, id) {
      assert retry[i] in first + retry;
      var j :| 0 <= j < |all| && all[j] == retry[i];
    }
  }

  lemma RetryOnlyMissing(retry: seq<Doc>, missing: seq<string>, id: string)
    requires forall d | d in retry :: d.id in missing
    ensures IdOf(retry, id) ==> id in missing
  {
    if i :| 0 <= i < |retry| && retry[i].id == id {
      assert retry[i] in retry;
    }
  }

  /** What a pull did to its queue, told from the ids it took and the messages it answered: an
      answered id is processing until the deadline, any other taken id is in no pool, and an id
      that was not taken stays where it was. */
  ghost predicate Delivered(s: Sys, queue: string, ids: seq<string>, deadline: real, messages: seq<Doc>, s': Sys) {
    && (forall id | id in ids :: IdOf(messages, id) <==> id in s'.Pool(queue))
    && (forall id | id in ids && id in s'.Pool(queue) :: s'.Pool(queue)[id] == Processing(deadline))
    && (forall id | id !in ids :: id in s'.Pool(queue) <==> id in s.Pool(queue))
    && (forall id | id !in ids && id in s.Pool(queue) :: s'.Pool(queue)[id] == s.Pool(queue)[id])
  }

  lemma PullDelivers(s: Sys, queue: string, op: Op, ids: seq<string>, now: nat, retryAt: nat, messages: seq<Doc>,
                     s': Sys)
    requires op.Pull? && ReconcileStep(s, queue, op, ids, now, retryAt, s')
    requires PullAnswer(s.shelf.docs, queue, ids, now, retryAt, messages)
    ensures Delivered(s, queue, ids, op.deadline, messages, s')
  {
    hide Found;
    hide IdOf;
  }

  // ---------- the queue ----------

  class Queue {
    const storage: MemoryStorage
    const cache: MemoryCache

    constructor (storage: MemoryStorage, cache: MemoryCache)
      ensures this.storage == storage && this.cache == cache
    {
      this.storage, this.cache := storage, cache;
    }

    ghost predicate Sound()
      reads storage, cache
    {
      storage.Valid() && cache.Valid()
    }

    /** Both parts are valid; storage takes no message without a queue, so nothing is cached under "". */
    ghost predicate Valid()
      reads storage, cache
    {
      Sound() && cache.At("") == M.EMPTY
    }

    ghost function Snapshot(): Sys
      reads storage, cache
    {
      Sys(storage.State(), TablesOf(cache.State()), cache.keys)
    }

    /** AddMessagesToCacheWithAuditReason. */
    method AddMessagesToCache(messages: seq<QueuedMsg>) returns (count: int)
      requires Sound()
      modifies cache`queues
      ensures Sound()
      ensures old(Valid()) && (forall i | 0 <= i < |messages| :: messages[i].queue != "") ==> Valid()
      ensures forall queue :: Snapshot().Pool(queue) == Inserted(old(Snapshot()).Pool(queue), Part(messages, queue))
      ensures count == NewAt(old(Snapshot()), messages)
      ensures forall i: nat | IsLast(messages, i) && IsNew(old(Snapshot()), messages[i]) ::
                var pool := Snapshot().Pool(messages[i].queue);
                messages[i].id in pool && pool[messages[i].id] == Active(messages[i].score)
    {
      hide TablesOf;
      hide M.Inv;
      hide Inserted;
      hide NewTotal;
      hide NewAt;
      var membersByQueue := GroupByQueue(messages);
      count := InsertGroups(messages, membersByQueue);
      NewInAll(old(Snapshot()), messages, membersByQueue);
      assert GroupedFor(membersByQueue, messages, "");
      if "" in membersByQueue {
        NamelessMember(messages);
      }
      forall i: nat | IsLast(messages, i) && IsNew(old(Snapshot()), messages[i])
        ensures var pool := Snapshot().Pool(messages[i].queue);
                messages[i].id in pool && pool[messages[i].id] == Active(messages[i].score)
      {
        LastIsInserted(old(Snapshot()).Pool(messages[i].queue), messages, i);
      }
    }

    /** One insertion per queue, in no particular order. */
    method InsertGroups(ghost messages: seq<QueuedMsg>, groups: map<string, seq<QueuedMsg>>) returns (count: int)
      requires Sound() && forall queue :: GroupedFor(groups, messages, queue)
      modifies cache`queues
      ensures Sound() && ("" !in groups ==> cache.At("") == old(cache.At("")))
      ensures forall queue :: Snapshot().Pool(queue) == Inserted(old(Snapshot()).Pool(queue), Part(messages, queue))
      ensures count == NewTotal(old(Snapshot()), messages, groups.Keys)
    {
      count := 0;
      ghost var s := Snapshot();
      hide M.Abs;
      hide Inserted;
      hide M.Inv;
      hide TablesOf;
      hide NewCount;
      hide NewTotal;
      hide Part;
      hide Members;
      hide Bare;
      var todo := groups.Keys;
      ghost var done: set<string> := {};
      NewInNone(s, messages);
      forall queue | queue !in todo ensures s.Pool(queue) == Inserted(s.Pool(queue), Part(messages, queue)) {
        assert GroupedFor(groups, messages, queue);
        NothingForQueue(s.Pool(queue), messages, queue);
      }
      while todo != {}
        invariant todo <= groups.Keys && done == groups.Keys - todo
        invariant Sound() && storage.State() == s.shelf && cache.keys == s.keys
        invariant "" !in groups ==> cache.At("") == old(cache.At(""))
        invariant forall queue | queue in todo :: Snapshot().Pool(queue) == s.Pool(queue)
        invariant forall queue | queue !in todo ::
                  Snapshot().Pool(queue) == Inserted(s.Pool(queue), Part(messages, queue))
        invariant count == NewTotal(s, messages, done)
        decreases todo
      {
        var queue :| queue in todo;
        assert GroupedFor(groups, messages, queue);
        MembersArePart(messages, queue);
        var added := InsertGroup(queue, groups[queue]);
        count := count + added;
        NewInOne(s, messages, done, queue);
        todo, done := todo - {queue}, done + {queue};
      }
      assert done == groups.Keys;
    }

    /** getFromStorage, called once and again for what it did not find. */
    method LookUp(queue: string, ids: seq<string>, now: nat, retryAt: nat)
      returns (messages: seq<Doc>, missing: seq<string>)
      requires storage.Valid() && queue != "" && ids != []
      ensures PullAnswer(storage.docs, queue, ids, now, retryAt, messages)
      ensures SetOf(missing) == Purged(storage.docs, queue, ids, now, retryAt)
    {
      hide PullAnswer;
      hide Answers;
      hide Purged;
      messages := storage.Find(now, LookupFilter(queue, ids), ByScore, |ids|);
      missing := NotFoundIds(ids, messages);
      if missing == [] {
        AllFoundAtOnce(storage.docs, queue, ids, now, retryAt, messages);
        return;
      }
      var retryMessages := storage.Find(retryAt, LookupFilter(queue, missing), ByScore, |missing|);
      var retryMissing := NotFoundIds(missing, retryMessages);
      ghost var first := messages;
      if |retryMessages| > 0 {
        SortFacts(ByScore, messages + retryMessages);
        messages := SortDocs(ByScore, messages + retryMessages);
      } else {
        AnswerIsSorted(storage.docs, now, LookupFilter(queue, ids), |ids|, messages);
        assert messages + retryMessages == messages;
      }
      JoinReads(storage.docs, queue, ids, now, retryAt, first, retryMessages, messages);
      missing := retryMissing;
    }

    /** Takes ids from the cache, answers their documents, and purges ids storage does not know. */
    method Pull(queue: string, n: int, min: Option<real>, max: Option<real>, ackDeadlineMs: int, now: nat, retryAt: nat)
      returns (r: Option<seq<Doc>>, ghost ids: seq<string>)
      requires Valid()
      modifies cache`queues, cache`processingQueues, cache`lockAckQueues, cache`lockNackQueues
      ensures Valid()
      ensures var op := Pools.Pull(n, min, max, MemoryDeadline(now, ackDeadlineMs));
              ReconcileStep(old(Snapshot()), queue, op, ids, now, retryAt, Snapshot())
      ensures PullAnswer(storage.docs, queue, ids, now, retryAt, if r.Some? then r.value else [])
      ensures r.Some? ==> r.value != []
      ensures var answered := if r.Some? then r.value else [];
              Delivered(old(Snapshot()), queue, ids, MemoryDeadline(now, ackDeadlineMs), answered, Snapshot())
      ensures M.TakesFront(old(Snapshot()).Pool(queue), n, min, max, ids)
      ensures r.Some? ==> forall i, j | 0 <= i < j < |r.value| :: r.value[i].score <= r.value[j].score
    {
      hide TablesOf;
      hide M.Inv;
      hide Step;
      hide M.TakesFront;
      hide PullAnswer;
      ghost var s, op := Snapshot(), Pools.Pull(n, min, max, MemoryDeadline(now, ackDeadlineMs));
      var pulled := TakeFromCache(queue, n, min, max, ackDeadlineMs, now);
      ids := pulled;
      ghost var s1 := Snapshot();
      if |pulled| == 0 {
        NothingPulled(s, queue, op, now, retryAt, s1);
        PullDelivers(s, queue, op, ids, now, retryAt, [], s1);
        return None, ids;
      }
      var messages, missing := LookUp(queue, pulled, now, retryAt);
      AnsweredInOrder(storage.docs, queue, pulled, now, retryAt, messages);
      if |missing| > 0 {
        var _ := RemoveFromCache(queue, missing);
        RemovedPool(s1, queue, missing, Snapshot());
      } else {
        assert s1.Pool(queue) == s1.Pool(queue) - SetOf(missing);
      }
      assert ReconcileStep(s, queue, op, ids, now, retryAt, Snapshot());
      hide ReconcileStep;
      PullDelivers(s, queue, op, ids, now, retryAt, messages, Snapshot());
      hide Delivered;
      if messages == [] {
        return None, ids;
      }
      return Some(messages), ids;
    }

    method TakeFromCache(queue: string, n: int, min: Option<real>, max: Option<real>, ackDeadlineMs: int, now: nat)
      returns (ids: seq<string>)
      requires Valid()
      modifies cache`queues, cache`processingQueues
      ensures Valid()
      ensures Operates(old(Snapshot()), queue, Pools.Pull(n, min, max, MemoryDeadline(now, ackDeadlineMs)), ids,
              Snapshot())
      ensures M.TakesFront(old(Snapshot()).Pool(queue), n, min, max, ids)
      ensures ids != [] ==> queue != ""
    {
      hide TablesOf;
      hide M.Apply;
      hide M.Inv;
      hide M.TakesFront;
      hide Step;
      ghost var s, op := Snapshot(), Pools.Pull(n, min, max, MemoryDeadline(now, ackDeadlineMs));
      ghost var before := cache.State();
      PulledFront(storage.State(), before, cache.keys, queue, op);
      ids := cache.PullMessages(queue, n, min, max, ackDeadlineMs, now);
      CacheOp(storage.State(), cache.keys, before, cache.State(), queue, op);
      StaysNameless(before, cache.State(), queue, op);
      PoolIsAbs(storage.State(), before, cache.keys, "");
      assert M.Abs(M.EMPTY) == map[];
      if ids != [] {
        PulledIsNamed(s, queue, op, ids, Snapshot());
      }
    }

    method RemoveFromCache(queue: string, ids: seq<string>) returns (removed: int)
      requires Valid()
      modifies cache`queues, cache`processingQueues, cache`lockAckQueues, cache`lockNackQueues
      ensures Valid()
      ensures Operates(old(Snapshot()), queue, Pools.Remove(ids), [], Snapshot())
      ensures removed == |old(Snapshot()).Pool(queue)| - |Snapshot().Pool(queue)|
    {
      hide TablesOf;
      hide M.Inv;
      hide Step;
      ghost var before := cache.State();
      removed := cache.Remove(queue, ids);
      PoolSize(storage.State(), before, cache.keys, queue);
      PoolSize(storage.State(), cache.State(), cache.keys, queue);
      CacheOp(storage.State(), cache.keys, before, cache.State(), queue, Pools.Remove(ids));
      StaysNameless(before, cache.State(), queue, Pools.Remove(ids));
    }

    /** Ack (LockAck) and Nack (LockNack). */
    method Ack(kind: LockKind, queue: string, id: string, score: real, lockMs: int, now: nat) returns (r: Result<bool>)
      requires Valid()
      modifies storage`docs, cache`queues, cache`processingQueues, cache`lockAckQueues, cache`lockNackQueues
      ensures Valid()
      ensures r.Err? <==> queue == "" || id == ""
      ensures AckStep(old(Snapshot()), kind, queue, id, score, lockMs, now, Snapshot())
      ensures r.Ok? ==> (r.value <==> Processed(old(Snapshot()), queue, id))
    {
      if queue == "" {
        return Err("message has a invalid queue");
      }
      if id == "" {
        return Err("message has a invalid ID");
      }
      hide TablesOf;
      hide M.Inv;
      hide Step;
      ghost var s := Snapshot();
      var _ := storage.Rescore(queue, id, score, lockMs);
      ghost var s1 := Snapshot();
      ghost var ids;
      r, ids := SettleInCache(kind, queue, id, score, lockMs, now);
      SamePools(s, s1, queue, AckOp(kind, id, score, lockMs, now), ids, Snapshot());
    }

    /** The cache part of Ack and Nack: lock the message or make it available. */
    method SettleInCache(kind: LockKind, queue: string, id: string, score: real, lockMs: int, now: nat)
      returns (r: Result<bool>, ghost ids: seq<string>)
      requires Valid() && queue != ""
      modifies cache`queues, cache`processingQueues, cache`lockAckQueues, cache`lockNackQueues
      ensures Valid() && r.Ok?
      ensures Operates(old(Snapshot()), queue, AckOp(kind, id, score, lockMs, now), ids, Snapshot())
      ensures r.value <==> Processed(old(Snapshot()), queue, id)
    {
      hide TablesOf;
      hide M.Inv;
      hide M.Apply;
      hide Step;
      ghost var before, op := cache.State(), AckOp(kind, id, score, lockMs, now);
      if lockMs > 0 {
        r := cache.LockMessage(queue, id, score, lockMs, kind, now);
      } else {
        r := cache.MakeAvailable(queue, id, score);
      }
      ids := M.Apply(before.At(queue), op).1;
      CacheOp(storage.State(), cache.keys, before, cache.State(), queue, op);
      StaysNameless(before, cache.State(), queue, op);
      ProcessingSeen(storage.State(), cache.keys, before, queue, id);
    }

    method Remove(queue: string, ids: seq<string>) returns (cacheRemoved: int, storageRemoved: int)
      requires Valid()
      modifies storage`docs, cache`queues, cache`processingQueues, cache`lockAckQueues, cache`lockNackQueues
      ensures Valid()
      ensures RemoveStep(old(Snapshot()), queue, ids, Snapshot())
      ensures cacheRemoved == |old(Snapshot()).Pool(queue)| - |Snapshot().Pool(queue)|
      ensures storageRemoved == Hits(old(storage.docs), queue, ids)
    {
      hide TablesOf;
      hide M.Inv;
      hide Step;
      hide Hits;
      storageRemoved := storage.Remove(queue, ids);
      ghost var s1 := Snapshot();
      cacheRemoved := RemoveFromCache(queue, ids);
    }

    method TimeoutMessages(queue: string, now: nat) returns (ids: seq<string>)
      requires Valid()
      modifies cache`queues, cache`processingQueues
      ensures Valid()
      ensures SweepStep(old(Snapshot()), Timeout(Sec(now) as real), Snapshot())
      ensures Operates(old(Snapshot()), queue, Timeout(Sec(now) as real), ids, Snapshot())
      ensures |ids| == if Due(old(Snapshot()).Pool(queue), Timeout(Sec(now) as real)) == {} then 0 else 1
    {
      hide TablesOf;
      hide M.Inv;
      hide M.Apply;
      hide Step;
      ghost var before, op := cache.State(), Timeout(Sec(now) as real);
      ids := cache.TimeoutMessages(queue, now);
      CacheOp(storage.State(), cache.keys, before, cache.State(), queue, op);
      StaysNameless(before, cache.State(), queue, op);
      OneSweep(old(Snapshot()), queue, op, ids, Snapshot());
      PoolIsAbs(storage.State(), before, cache.keys, queue);
      assert M.Inv(before.At(queue));
      OneDueMoves(before.At(queue), op);
      hide Due;
    }

    method UnlockMessages(queue: string, kind: LockKind, now: nat) returns (ids: seq<string>)
      requires Valid()
      modifies cache`queues, cache`lockAckQueues, cache`lockNackQueues
      ensures Valid()
      ensures SweepStep(old(Snapshot()), UnlockAt(kind, now), Snapshot())
      ensures forall id :: id in ids <==> exists other :: Unlocked(old(Snapshot()), other, id, Snapshot())
      ensures forall other :: Snapshot().Pool(other) == old(Snapshot()).Pool(other)
                              <==> Due(old(Snapshot()).Pool(other), UnlockAt(kind, now)) == {}
      ensures forall other :: OpensSome(old(Snapshot()).Pool(other), kind, now, Snapshot().Pool(other))
    {
      hide M.Apply;
      hide TablesOf;
      hide Due;
      hide Unlocked;
      hide Opened;
      hide M.Inv;
      ghost var before, op := cache.State(), UnlockAt(kind, now);
      ids := cache.UnlockMessages(queue, kind, now);
      AllSwept(storage.State(), cache.keys, before, cache.State(), op);
      assert before.At("") == M.EMPTY;
      NothingLocked(before.At(""), kind, now);
      ghost var s, s' := Sys(storage.State(), TablesOf(before), cache.keys), Snapshot();
      forall other
        ensures s'.Pool(other) == s.Pool(other) <==> Due(s.Pool(other), op) == {}
        ensures forall id :: id in M.Apply(before.At(other), op).1 <==> Unlocked(s, other, id, s')
      {
        UnlockSeen(storage.State(), cache.keys, before, cache.State(), other, op);
      }
      forall other ensures OpensSome(s.Pool(other), kind, now, s'.Pool(other)) {
        PoolIsAbs(storage.State(), before, cache.keys, other);
        PoolIsAbs(storage.State(), cache.State(), cache.keys, other);
        assert Opened(s.Pool(other), kind, now, M.Apply(before.At(other), op).1, s'.Pool(other));
      }
      forall id ensures id in ids <==> exists other :: Unlocked(s, other, id, s') {
        if id in ids {
          var other :| id in M.Apply(before.At(other), op).1;
          assert Unlocked(s, other, id, s');
        }
        if other :| Unlocked(s, other, id, s') {
          assert id in M.Apply(before.At(other), op).1;
        }
      }
    }

    /** The cache is lost, with the recovery keys, and storage is not. */
    method WipeCache()
      requires Valid()
      modifies cache
      ensures Valid()
      ensures Snapshot() == old(Snapshot()).(cache := map[], keys := NO_KEYS)
    {
      cache.Flush();
      assert TablesOf(cache.State()) == map[];
    }

    method Flush()
      requires Valid()
      modifies storage`docs, storage`configurations, cache
      ensures Valid()
      ensures Snapshot() == Sys(Shelf(map[], old(storage.counter)), map[], NO_KEYS)
    {
      cache.Flush();
      var _ := storage.Flush();
      assert TablesOf(cache.State()) == map[];
    }

    method InsertGroup(queue: string, elements: seq<QueuedMsg>) returns (count: int)
      requires Sound() && forall m | m in elements :: m.queue == queue
      modifies cache`queues
      ensures Sound() && forall other | other != queue :: cache.At(other) == old(cache.At(other))
      ensures Snapshot().Pool(queue) == Inserted(old(Snapshot()).Pool(queue), Bare(elements))
      ensures forall other | other != queue :: Snapshot().Pool(other) == old(Snapshot()).Pool(other)
      ensures count == NewCount(old(Snapshot()).Pool(queue), Bare(elements))
    {
      ghost var before := cache.State();
      var r := cache.Insert(queue, elements);
      count := if r.Ok? then |r.value| else 0;
      forall other { PoolIsAbs(storage.State(), before, cache.keys, other); }
      forall other { PoolIsAbs(storage.State(), cache.State(), cache.keys, other); }
      InsertResult(before.At(queue), Bare(elements));
      InsertCount(before.At(queue), Bare(elements));
    }
  }

  /** A cache operation of one queue, seen from the tables. */
  lemma CacheOp(shelf: Shelf, keys: Keys, store: Store, store': Store, queue: string, op: Op)
    requires store.Valid() && Performed(store, store', queue, op)
    ensures Operates(Sys(shelf, TablesOf(store), keys), queue, op, M.Apply(store.At(queue), op).1,
                     Sys(shelf, TablesOf(store'), keys))
  {
    hide M.Apply;
    hide Step;
    hide M.Abs;
    hide TablesOf;
    forall other { PoolIsAbs(shelf, store, keys, other); }
    forall other { PoolIsAbs(shelf, store', keys, other); }
    assert M.Inv(store.At(queue));
    hide M.Inv;
    M.Refines(store.At(queue), op);
  }

  lemma LastIsInserted(t: Table, messages: seq<QueuedMsg>, i: nat)
    requires IsLast(messages, i) && messages[i].id !in t
    ensures var t' := Inserted(t, Part(messages, messages[i].queue));
            messages[i].id in t' && t'[messages[i].id] == Active(messages[i].score)
  {
    LastDecides(messages, i);
    hide Latest;
    hide Part;
  }

  ghost predicate OpensSome(t: Table, kind: LockKind, now: nat, t': Table) {
    exists ids :: Opened(t, kind, now, ids, t')
  }

  /** The message was locked and is active now. */
  ghost predicate Unlocked(s: Sys, queue: string, id: string, s': Sys) {
    && id in s.Pool(queue) && s.Pool(queue)[id].Locked?
    && id in s'.Pool(queue) && s'.Pool(queue)[id].Active?
  }

  lemma UnlockedIff(t: Table, op: Op, ids: seq<string>, t': Table, id: string)
    requires op.Unlock? && Step(t, op, ids, t')
    ensures id in ids <==> id in t && t[id].Locked? && id in t' && t'[id].Active?
  {
    assert id in ids ==> DueToUnlock(t, op.kind, op.now, id);
  }

  /** An unlock changes a queue exactly when a lock of its kind is due there. */
  lemma UnlockSeen(shelf: Shelf, keys: Keys, store: Store, store': Store, queue: string, op: Op)
    requires op.Unlock? && store.Valid() && store'.At(queue) == M.Apply(store.At(queue), op).0
    ensures var s, s' := Sys(shelf, TablesOf(store), keys), Sys(shelf, TablesOf(store'), keys);
            && (s'.Pool(queue) == s.Pool(queue) <==> Due(s.Pool(queue), op) == {})
            && (forall id :: id in M.Apply(store.At(queue), op).1 <==> Unlocked(s, queue, id, s'))
  {
    var p, ids := store.At(queue), M.Apply(store.At(queue), op).1;
    PoolIsAbs(shelf, store, keys, queue);
    PoolIsAbs(shelf, store', keys, queue);
    assert M.Inv(p);
    M.Refines(p, op);
    OneDueMoves(p, op);
    hide M.Apply;
    hide M.Abs;
    hide TablesOf;
    hide M.Inv;
    var t, t' := M.Abs(p), M.Abs(store'.At(queue));
    forall id ensures id in ids <==> id in t && t[id].Locked? && id in t' && t'[id].Active? {
      UnlockedIff(t, op, ids, t', id);
    }
    if ids == [] {
      NoneStep(t, op, t');
    } else {
      assert ids[0] in ids;
      assert t[ids[0]] != t'[ids[0]];
    }
    hide Step;
    hide Due;
  }

  lemma NoneStep(t: Table, op: Op, t': Table)
    requires op.Unlock? && Step(t, op, [], t')
    ensures t' == t
  {
  }

  /** Nothing but an insertion can fill the nameless queue. */
  lemma StaysNameless(store: Store, store': Store, queue: string, op: Op)
    requires store.At("") == M.EMPTY && Performed(store, store', queue, op) && (queue == "" ==> !op.Insert?)
    ensures store'.At("") == M.EMPTY
  {
    if queue == "" && op.Remove? {
      NothingToRemove(op.ids);
    }
  }

  lemma {:induction false} NothingToRemove(ids: seq<string>)
    ensures EntryLists.RemoveAll([], ids) == []
  {
    if ids == [] {
    } else {
      NothingToRemove(ids[..|ids| - 1]);
    }
  }

  lemma PulledFront(shelf: Shelf, store: Store, keys: Keys, queue: string, op: Op)
    requires store.Valid() && op.Pull?
    ensures M.TakesFront(Sys(shelf, TablesOf(store), keys).Pool(queue), op.n, op.min, op.max,
                         M.Apply(store.At(queue), op).1)
  {
    PoolIsAbs(shelf, store, keys, queue);
    assert M.Inv(store.At(queue));
    hide M.Inv;
    hide M.DoPull;
    M.PullTakesFront(store.At(queue), op.n, op.min, op.max, op.deadline);
  }

  lemma NothingPulled(s: Sys, queue: string, op: Op, now: nat, retryAt: nat, s': Sys)
    requires op.Pull? && Operates(s, queue, op, [], s') && s'.shelf == s.shelf && s'.keys == s.keys
    ensures ReconcileStep(s, queue, op, [], now, retryAt, s')
    ensures PullAnswer(s.shelf.docs, queue, [], now, retryAt, [])
  {
    assert s'.Pool(queue) == s'.Pool(queue) - Purged(s.shelf.docs, queue, [], now, retryAt);
  }

  lemma PulledIsNamed(s: Sys, queue: string, op: Op, ids: seq<string>, s': Sys)
    requires op.Pull? && Operates(s, queue, op, ids, s') && ids != [] && s.Pool("") == map[]
    ensures queue != ""
  {
    assert ids[0] in ids;
  }

  lemma RemovedPool(s: Sys, queue: string, removed: seq<string>, s': Sys)
    requires Operates(s, queue, Pools.Remove(removed), [], s')
    ensures s'.Pool(queue) == s.Pool(queue) - SetOf(removed)
  {
  }

  /** Cache operations do not look at storage. */
  lemma SamePools(s: Sys, s1: Sys, queue: string, op: Op, ids: seq<string>, s2: Sys)
    requires s.cache == s1.cache && Operates(s1, queue, op, ids, s2)
    ensures Operates(s, queue, op, ids, s2)
    ensures forall id :: Processed(s, queue, id) <==> Processed(s1, queue, id)
  {
  }

  ghost predicate Processed(s: Sys, queue: string, id: string) {
    id in s.Pool(queue) && s.Pool(queue)[id].Processing?
  }

  lemma ProcessingSeen(shelf: Shelf, keys: Keys, store: Store, queue: string, id: string)
    requires store.Valid()
    ensures Processed(Sys(shelf, TablesOf(store), keys), queue, id) <==> EntryLists.Has(store.At(queue).processing, id)
  {
    PoolIsAbs(shelf, store, keys, queue);
    assert M.Inv(store.At(queue));
    M.HasIsMember(store.At(queue), id);
    assert M.MapsOf(store.At(queue)).InOnePool(id);
  }

  lemma OneSweep(s: Sys, queue: string, op: Op, ids: seq<string>, s': Sys)
    requires (op.Timeout? || op.Unlock?) && Operates(s, queue, op, ids, s')
    ensures forall other :: Sweeps(s, op, other, s')
  {
    forall other ensures Sweeps(s, op, other, s') {
      if other == queue {
        assert Step(s.Pool(other), op, ids, s'.Pool(other));
      } else {
        assert Step(s.Pool(other), op, [], s'.Pool(other));
      }
    }
  }

  lemma AllSwept(shelf: Shelf, keys: Keys, store: Store, store': Store, op: Op)
    requires store.Valid() && (op.Timeout? || op.Unlock?)
    requires forall queue :: store'.At(queue) == M.Apply(store.At(queue), op).0
    ensures forall queue :: Sweeps(Sys(shelf, TablesOf(store), keys), op, queue, Sys(shelf, TablesOf(store'), keys))
  {
    hide M.Apply;
    hide Step;
    hide M.Abs;
    hide TablesOf;
    var s, s' := Sys(shelf, TablesOf(store), keys), Sys(shelf, TablesOf(store'), keys);
    forall queue ensures Sweeps(s, op, queue, s') {
      PoolIsAbs(shelf, store, keys, queue);
      PoolIsAbs(shelf, store', keys, queue);
      assert M.Inv(store.At(queue));
      M.Refines(store.At(queue), op);
      assert Step(s.Pool(queue), op, M.Apply(store.At(queue), op).1, s'.Pool(queue));
    }
  }

  lemma AllFoundAtOnce(docs: Docs, queue: string, ids: seq<string>, now: nat, retryAt: nat, messages: seq<Doc>)
    requires WellKeyed(docs) && queue != "" && ids != [] && Missing(ids, messages) == []
    requires Answers(docs, now, LookupFilter(queue, ids), ByScore, |ids|, messages)
    ensures PullAnswer(docs, queue, ids, now, retryAt, messages)
    ensures Purged(docs, queue, ids, now, retryAt) == {}
  {
    MissingMembers(ids, messages);
    forall id | id in ids ensures IdOf(messages, id) && Found(docs, queue, id, now, retryAt) {
      assert id !in Missing(ids, messages);
      LookupFinds(docs, now, queue, ids, messages, id);
    }
  }

  lemma InsertResult(p: M.Lists, messages: seq<Msg>)
    requires M.Inv(p)
    ensures M.Abs(M.Apply(p, Pools.Insert(messages)).0) == Inserted(M.Abs(p), messages)
  {
    var (p', ids) := M.Apply(p, Pools.Insert(messages));
    M.Refines(p, Pools.Insert(messages));
    InsertedByStep(M.Abs(p), messages, ids, M.Abs(p'));
  }

  // ---------- how many messages of a batch are new ----------

  predicate IsNew(s: Sys, m: QueuedMsg) {
    m.id !in s.Pool(m.queue)
  }

  /** The positions of a batch whose message goes to one of the queues and is not there yet. */
  ghost function NewIn(s: Sys, messages: seq<QueuedMsg>, queues: set<string>): set<int> {
    set i | 0 <= i < |messages| && messages[i].queue in queues && IsNew(s, messages[i])
  }

  ghost function NewTotal(s: Sys, messages: seq<QueuedMsg>, queues: set<string>): nat {
    |NewIn(s, messages, queues)|
  }

  /** How many messages of a batch their queues do not hold. */
  ghost function NewAt(s: Sys, messages: seq<QueuedMsg>): nat {
    |set i | 0 <= i < |messages| && IsNew(s, messages[i])|
  }

  ghost function NewCount(t: Table, messages: seq<Msg>): nat {
    if messages == [] then 0
    else
      var n := |messages| - 1;
      NewCount(t, messages[..n]) + if messages[n].id in t then 0 else 1
  }

  lemma NewInNone(s: Sys, messages: seq<QueuedMsg>)
    ensures NewTotal(s, messages, {}) == 0
  {
    assert NewIn(s, messages, {}) == {};
  }

  lemma {:induction false} NewInQueue(s: Sys, messages: seq<QueuedMsg>, queue: string)
    ensures NewTotal(s, messages, {queue}) == NewCount(s.Pool(queue), Part(messages, queue))
  {
    if messages == [] {
      assert NewIn(s, messages, {queue}) == {};
    } else {
      var n := |messages| - 1;
      var m, rest := messages[n], messages[..n];
      NewInQueue(s, rest, queue);
      assert messages == rest + [m];
      NewInSnoc(s, rest, m, queue);
      PartSnoc(messages, queue);
      NewCountSnoc(s.Pool(queue), Part(rest, queue), Msg(m.id, m.score));
      hide NewTotal;
      hide NewCount;
      hide Part;
    }
  }

  lemma NewInSnoc(s: Sys, messages: seq<QueuedMsg>, m: QueuedMsg, queue: string)
    ensures NewTotal(s, messages + [m], {queue})
            == NewTotal(s, messages, {queue}) + if m.queue == queue && IsNew(s, m) then 1 else 0
  {
    hide IsNew;
    var both, before, after := messages + [m], NewIn(s, messages, {queue}), NewIn(s, messages + [m], {queue});
    forall i | 0 <= i < |messages| ensures both[i] == messages[i] { }
    assert both[|messages|] == m;
    if m.queue == queue && IsNew(s, m) {
      assert after == before + {|messages|};
    } else {
      assert after == before;
    }
  }

  lemma NewCountSnoc(t: Table, messages: seq<Msg>, m: Msg)
    ensures NewCount(t, messages + [m]) == NewCount(t, messages) + if m.id in t then 0 else 1
  {
    assert (messages + [m])[..|messages|] == messages;
  }

  lemma NewInOne(s: Sys, messages: seq<QueuedMsg>, done: set<string>, queue: string)
    requires queue !in done
    ensures NewTotal(s, messages, done + {queue})
            == NewTotal(s, messages, done) + NewCount(s.Pool(queue), Part(messages, queue))
  {
    NewInQueue(s, messages, queue);
    hide NewCount;
    hide IsNew;
    hide Part;
    var a, b := NewIn(s, messages, done), NewIn(s, messages, {queue});
    assert NewIn(s, messages, done + {queue}) == a + b && a !! b;
  }

  lemma NewInAll(s: Sys, messages: seq<QueuedMsg>, groups: map<string, seq<QueuedMsg>>)
    requires forall queue :: GroupedFor(groups, messages, queue)
    ensures NewTotal(s, messages, groups.Keys) == NewAt(s, messages)
  {
    forall i | 0 <= i < |messages| ensures messages[i].queue in groups {
      assert GroupedFor(groups, messages, messages[i].queue);
      HasMember(messages, i);
    }
    hide IsNew;
    hide GroupedFor;
    assert NewIn(s, messages, groups.Keys) == set i | 0 <= i < |messages| && IsNew(s, messages[i]);
  }

  lemma {:induction false} HasMember(messages: seq<QueuedMsg>, i: nat)
    requires i < |messages|
    ensures Members(messages, messages[i].queue) != []
  {
    var n := |messages| - 1;
    if i < n {
      HasMember(messages[..n], i);
    }
  }

  /** The reply of an insertion counts the messages the queue did not hold. */
  lemma {:induction false} InsertCount(p: M.Lists, messages: seq<Msg>)
    requires M.Inv(p)
    ensures |M.Apply(p, Pools.Insert(messages)).1| == NewCount(M.Abs(p), messages)
  {
    if messages == [] {
    } else {
      var n := |messages| - 1;
      InsertCount(p, messages[..n]);
      M.HasIsMember(p, messages[n].id);
    }
  }

  lemma NothingForQueue(t: Table, messages: seq<QueuedMsg>, queue: string)
    requires Members(messages, queue) == []
    ensures Inserted(t, Part(messages, queue)) == t
  {
    MembersArePart(messages, queue);
    assert Part(messages, queue) == [];
    assert Latest([]) == map[];
  }

  lemma {:induction false} NamelessMember(messages: seq<QueuedMsg>)
    requires Members(messages, "") != []
    ensures exists i | 0 <= i < |messages| :: messages[i].queue == ""
  {
    if messages == [] {
    } else {
      var n := |messages| - 1;
      if messages[n].queue != "" {
        NamelessMember(messages[..n]);
        var i :| 0 <= i < n && messages[..n][i].queue == "";
        assert messages[i].queue == "";
      }
    }
  }
}
