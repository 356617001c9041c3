/** The service calls of deckard_service.go over the in-memory storage and cache. Each call is
    proved to be one action of `System`, so the run theorems speak about these methods. */
module Service {
  import opened Score
  import opened Pools
  import opened StorageModel
  import opened Clock
  import S = System
  import RequestRules
  import M = MemoryPools
  import opened MemoryCaches
  import opened Queues

  // ---------- Add ----------

  method BuildMessages(items: seq<S.AddItem>, now: nat) returns (messages: seq<NewMessage>)
    ensures messages == S.ToMessages(items, now)
    ensures forall i | 0 <= i < |items| :: RequestRules.AddedScore(items[i].score, now, messages[i].score)
  {
    messages := [];
    for i := 0 to |items|
      invariant messages == S.ToMessages(items[..i], now)
    {
      var item := items[i];
      var score := item.score;
      if score == 0.0 {
        score := Ms(now) as real;
      } else if score < MIN {
        score := MIN;
      } else if score > MAX {
        score := MAX;
      }
      messages := messages + [NewMessage(item.queue, item.id, score, item.expiry, item.timeless, item.content)];
    }
    assert items[..|items|] == items;
  }

  lemma ValidMessages(items: seq<S.AddItem>, now: nat)
    ensures |S.ToMessages(items, now)| == |S.Queued(S.ToMessages(items, now))| == |items|
    ensures forall i | 0 <= i < |items| :: S.ToMessages(items, now)[i].Valid() <==> S.Addable(items[i])
    ensures S.AllAddable(items) ==> forall i | 0 <= i < |items| :: S.Queued(S.ToMessages(items, now))[i].queue != ""
  {
  }

  lemma {:induction false} FailsAtAccepted(items: seq<S.AddItem>, now: nat, i: nat)
    requires i < |items| && !S.Addable(items[i]) && S.AllAddable(items[..i])
    ensures S.Accepted(items) == i && S.ToMessages(items[..i], now) == S.ToMessages(items, now)[..i]
  {
    if i == 0 {
    } else {
      assert items[..i][0] == items[0] && items[1..][..i - 1] == items[..i][1..];
      FailsAtAccepted(items[1..], now, i - 1);
    }
  }

  /** Stores and then caches a batch. A batch with a nameless message fails half way. */
  method Add(pool: Queue, items: seq<S.AddItem>, now: nat) returns (r: Result<(int, int)>)
    requires pool.Valid()
    modifies pool.storage`docs, pool.storage`counter, pool.cache`queues
    ensures pool.Valid()
    ensures r.Ok? <==> S.AllAddable(items)
    ensures r.Ok? <==> forall i | 0 <= i < |items| :: items[i].queue != "" && items[i].id != ""
    ensures S.Next(old(pool.Snapshot()), S.Add(items), now, pool.Snapshot())
    ensures r.Ok? ==>
              && r.value.0 == |pool.storage.docs| - |old(pool.storage.docs)|
              && r.value.0 + r.value.1 == |items|
    ensures r.Ok? ==> forall queue, id ::
              RequestRules.AddedTo(old(pool.Snapshot()), items, now, pool.Snapshot(), queue, id)
    ensures r.Ok? ==> forall k ::
              RequestRules.StoredBy(old(pool.storage.State()), items, now, pool.storage.State(), k)
    ensures r.Err? ==> forall k ::
              RequestRules.StoredBy(old(pool.storage.State()), items[..S.Accepted(items)], now, pool.storage.State(), k)
    ensures r.Err? ==> pool.Snapshot().cache == old(pool.Snapshot()).cache
  {
    hide RequestRules.AddedTo;
    hide RequestRules.StoredBy;
    hide TablesOf;
    hide M.Inv;
    hide Put;
    hide S.ToMessages;
    hide S.Queued;
    hide S.Inserted;
    hide S.AddStep;
    hide NewAt;
    hide ShelfInv;
    ghost var s := pool.Snapshot();
    var messages := BuildMessages(items, now);
    ValidMessages(items, now);
    r := pool.storage.Insert(messages);
    if r.Err? {
      ghost var i :| 0 <= i < |messages| && !messages[i].Valid() && (forall j | 0 <= j < i :: messages[j].Valid())
                     && pool.storage.State() == Put(old(pool.storage.State()), messages[..i]);
      FailsAtAccepted(items, now, i);
      RequestRules.AddRules(s, items, now, pool.Snapshot());
      return;
    }
    var _ := pool.AddMessagesToCache(S.Queued(messages));
    S.InsertedIsAddStep(s, messages, pool.Snapshot());
    RequestRules.AddRules(s, items, now, pool.Snapshot());
  }

  // ---------- Pull ----------

  const MAX_PULL: int := 1000

  /** The number of messages a pull asks the queue for. */
  function PullAmount(requested: int): (n: int)
    ensures 1 <= requested <= 1000 ==> n == requested
    ensures requested < 1 ==> n == 1
    ensures requested > 1000 ==> n == 1000
  {
    if requested <= 0 then 1 else if requested > MAX_PULL then MAX_PULL else requested
  }

  /** The upper score bound, with the deprecated score filter as a fallback. */
  function PullMax(maxScore: real, scoreFilter: int, now: nat): Option<real> {
    PullMaxScore(if maxScore == 0.0 && scoreFilter > 0 then (Ms(now) - scoreFilter) as real else maxScore)
  }

  function PullOp(amount: int, minScore: real, maxScore: real, scoreFilter: int, ackDeadlineMs: int, now: nat): Op {
    Pools.Pull(PullAmount(amount), PullMinScore(minScore), PullMax(maxScore, scoreFilter, now),
      MemoryDeadline(now, ackDeadlineMs))
  }

  /** The scores a pull asks for. A bound of 0 is no bound, one outside 0..2^53 stands for the nearer
      end, and without a maximum a positive score filter asks for messages at least that old. */
  ghost predicate Wanted(minScore: real, maxScore: real, scoreFilter: int, now: nat, score: real) {
    var bound := if maxScore == 0.0 && scoreFilter > 0 then (Ms(now) - scoreFilter) as real else maxScore;
    && (minScore == 0.0 || NotBelow(minScore, score))
    && (bound == 0.0 || NotAbove(bound, score))
  }

  ghost predicate NotBelow(bound: real, score: real) {
    exists min :: RequestRules.BroughtInRange(bound, min) && min <= score
  }

  ghost predicate NotAbove(bound: real, score: real) {
    exists max :: RequestRules.BroughtInRange(bound, max) && score <= max
  }

  lemma BoundsAsRequested(bound: real, score: real)
    requires bound != 0.0
    ensures NotBelow(bound, score) <==> InRange(score, PullMinScore(bound), None)
    ensures NotAbove(bound, score) <==> InRange(score, None, PullMaxScore(bound))
  {
    assert RequestRules.BroughtInRange(bound, PullMinScore(bound).value);
    assert RequestRules.BroughtInRange(bound, PullMaxScore(bound).value);
  }

  lemma WantedIff(minScore: real, maxScore: real, scoreFilter: int, now: nat, score: real)
    ensures Wanted(minScore, maxScore, scoreFilter, now, score)
            <==> InRange(score, PullMinScore(minScore), PullMax(maxScore, scoreFilter, now))
  {
    var bound := if maxScore == 0.0 && scoreFilter > 0 then (Ms(now) - scoreFilter) as real else maxScore;
    if minScore != 0.0 {
      BoundsAsRequested(minScore, score);
    }
    if bound != 0.0 {
      BoundsAsRequested(bound, score);
    }
    hide NotBelow;
    hide NotAbove;
  }

  /** What a pull takes from a pool: among the n active messages of lowest score, where n is the amount
      asked for, held to 1..1000, those with a wanted score. */
  ghost predicate Takes(t: Table, amount: int, minScore: real, maxScore: real, scoreFilter: int, now: nat,
                        ids: seq<string>) {
    exists front :: M.IsFront(t, PullAmount(amount), front)
                    && TakesWanted(t, front, minScore, maxScore, scoreFilter, now, ids)
  }

  ghost predicate TakesWanted(t: Table, front: set<string>, minScore: real, maxScore: real, scoreFilter: int, now: nat,
                              ids: seq<string>)
    requires front <= t.Keys && forall id | id in front :: t[id].Active?
  {
    forall id :: id in ids <==> id in front && Wanted(minScore, maxScore, scoreFilter, now, t[id].score)
  }

  lemma FrontIsWanted(t: Table, amount: int, minScore: real, maxScore: real, scoreFilter: int, now: nat,
                      ids: seq<string>)
    requires M.TakesFront(t, PullAmount(amount), PullMinScore(minScore), PullMax(maxScore, scoreFilter, now), ids)
    ensures Takes(t, amount, minScore, maxScore, scoreFilter, now, ids)
  {
    var min, max := PullMinScore(minScore), PullMax(maxScore, scoreFilter, now);
    var front :| M.IsFront(t, PullAmount(amount), front) && M.TakesInRange(t, front, min, max, ids);
    forall id ensures id in ids <==> id in front && Wanted(minScore, maxScore, scoreFilter, now, t[id].score) {
      if id in front {
        WantedIff(minScore, maxScore, scoreFilter, now, t[id].score);
      }
    }
    hide Wanted;
    assert TakesWanted(t, front, minScore, maxScore, scoreFilter, now, ids);
  }

  method Pull(pool: Queue, queue: string, amount: int, minScore: real, maxScore: real, scoreFilter: int,
              ackDeadlineMs: int, now: nat, retryAt: nat)
    returns (messages: seq<Doc>, ghost ids: seq<string>)
    requires pool.Valid()
    modifies pool.cache`queues, pool.cache`processingQueues, pool.cache`lockAckQueues, pool.cache`lockNackQueues
    ensures pool.Valid()
    ensures S.Next(old(pool.Snapshot()),
            S.Pull(queue, PullOp(amount, minScore, maxScore, scoreFilter, ackDeadlineMs, now), retryAt),
                   now, pool.Snapshot())
    ensures Takes(old(pool.Snapshot()).Pool(queue), amount, minScore, maxScore, scoreFilter, now, ids)
    ensures forall i, j | 0 <= i < j < |messages| :: messages[i].score <= messages[j].score
    ensures |ids| <= 1000 && PullAnswer(pool.storage.docs, queue, ids, now, retryAt, messages)
    ensures Delivered(old(pool.Snapshot()), queue, ids, MemoryDeadline(now, ackDeadlineMs), messages, pool.Snapshot())
  {
    hide PullAnswer;
    hide Delivered;
    hide Takes;
    hide M.TakesFront;
    hide TablesOf;
    hide M.Inv;
    var bound := maxScore;
    if bound == 0.0 && scoreFilter > 0 {
      bound := (Ms(now) - scoreFilter) as real;
    }
    var r;
    r, ids := pool.Pull(queue, PullAmount(amount), PullMinScore(minScore), PullMaxScore(bound), ackDeadlineMs, now,
      retryAt);
    messages := if r.Some? then r.value else [];
    FrontIsWanted(old(pool.Snapshot()).Pool(queue), amount, minScore, maxScore, scoreFilter, now, ids);
  }

  // ---------- Ack, Nack and Remove ----------

  method ComputeScore(kind: LockKind, reply: S.Reply, now: nat) returns (newScore: real)
    ensures newScore == S.ReplyScore(kind, reply, now)
    ensures RequestRules.SettledScore(kind, reply, now, newScore)
  {
    newScore := UNDEFINED;
    if reply.requested != 0.0 {
      newScore := reply.requested;
    } else if reply.lockMs == 0 {
      if kind == LockNack {
        return MIN;
      }
      newScore := Ms(now) as real - reply.scoreSubtract;
      if newScore < MIN {
        newScore := MIN;
      } else if newScore > MAX {
        newScore := MAX;
      }
    }
  }

  /** Ack (LockAck) and Nack (LockNack), without removal. */
  method Settle(pool: Queue, kind: LockKind, queue: string, id: string, reply: S.Reply, now: nat)
    returns (r: Result<bool>)
    requires pool.Valid()
    modifies pool.storage`docs
    modifies pool.cache`queues, pool.cache`processingQueues, pool.cache`lockAckQueues, pool.cache`lockNackQueues
    ensures pool.Valid()
    ensures S.Next(old(pool.Snapshot()), S.Settle(kind, queue, id, reply), now, pool.Snapshot())
    ensures RequestRules.Settled(old(pool.Snapshot()), kind, queue, id, reply, now, pool.Snapshot())
    ensures r.Err? <==> queue == "" || id == ""
    ensures r.Ok? ==> (r.value <==> Processed(old(pool.Snapshot()), queue, id))
  {
    hide TablesOf;
    hide M.Inv;
    hide S.AckStep;
    hide Processed;
    hide RequestRules.Settled;
    var newScore := ComputeScore(kind, reply, now);
    r := pool.Ack(kind, queue, id, newScore, reply.lockMs, now);
    RequestRules.SettleRule(old(pool.Snapshot()), kind, queue, id, reply, now, pool.Snapshot());
  }

  method Remove(pool: Queue, queue: string, ids: seq<string>, ghost now: nat)
    returns (cacheRemoved: int, storageRemoved: int)
    requires pool.Valid()
    modifies pool.storage`docs
    modifies pool.cache`queues, pool.cache`processingQueues, pool.cache`lockAckQueues, pool.cache`lockNackQueues
    ensures pool.Valid()
    ensures ids != [] ==> S.Next(old(pool.Snapshot()), S.Remove(queue, ids), now, pool.Snapshot())
    ensures ids == [] ==> pool.Snapshot() == old(pool.Snapshot())
    ensures cacheRemoved == |old(pool.Snapshot()).Pool(queue)| - |pool.Snapshot().Pool(queue)|
    ensures storageRemoved == Hits(old(pool.storage.docs), queue, ids)
  {
    hide TablesOf;
    hide M.Inv;
    hide S.RemoveStep;
    if |ids| == 0 {
      return 0, 0;
    }
    cacheRemoved, storageRemoved := pool.Remove(queue, ids);
  }

  /** An Ack or Nack that asks for removal settles the message and then removes it. */
  method SettleAndRemove(pool: Queue, kind: LockKind, queue: string, id: string, reply: S.Reply, now: nat)
    returns (r: Result<bool>, cacheRemoved: int, storageRemoved: int)
    requires pool.Valid()
    modifies pool.storage`docs
    modifies pool.cache`queues, pool.cache`processingQueues, pool.cache`lockAckQueues, pool.cache`lockNackQueues
    ensures pool.Valid()
    ensures S.Next(old(pool.Snapshot()), S.SettleAndRemove(kind, queue, id, reply), now, pool.Snapshot())
    ensures r.Err? <==> queue == "" || id == ""
    ensures r.Err? ==> pool.Snapshot() == old(pool.Snapshot()) && cacheRemoved == storageRemoved == 0
    ensures r.Ok? ==> r.value
    ensures r.Ok? ==> !exists d :: Stored(pool.storage.docs, d) && d.queue == queue && d.id == id
    ensures r.Ok? ==> id !in pool.Snapshot().Pool(queue)
    ensures r.Ok? ==> cacheRemoved == if id in old(pool.Snapshot()).Pool(queue) then 1 else 0
    ensures r.Ok? ==> storageRemoved == if HasDoc(old(pool.storage.docs), queue, id) then 1 else 0
  {
    hide TablesOf;
    hide M.Inv;
    hide S.AckStep;
    hide S.RemoveStep;
    hide Hits;
    r := Settle(pool, kind, queue, id, reply, now);
    cacheRemoved, storageRemoved := 0, 0;
    ghost var s, settled := old(pool.Snapshot()), pool.Snapshot();
    if r.Err? {
      assert S.SettleAndRemoveStep(s, kind, queue, id, reply, now, settled, settled);
      NamelessChangesNothing(s, kind, queue, id, reply, now, settled);
      return;
    }
    cacheRemoved, storageRemoved := Remove(pool, queue, [id], now);
    assert S.SettleAndRemoveStep(s, kind, queue, id, reply, now, settled, pool.Snapshot());
    RemovedForGood(settled, queue, id, now, pool.Snapshot());
    OneRemoved(s, kind, queue, id, reply, now, settled, pool.Snapshot());
    r := Ok(true);
  }

  /** Settling moves no id in or out, so the removal takes the one message if it was there. */
  lemma OneRemoved(s: S.Sys, kind: LockKind, queue: string, id: string, reply: S.Reply, now: nat, settled: S.Sys,
                   s': S.Sys)
    requires queue != "" && id != "" && S.Next(s, S.Settle(kind, queue, id, reply), now, settled)
    requires S.Next(settled, S.Remove(queue, [id]), now, s')
    ensures |settled.Pool(queue)| - |s'.Pool(queue)| == if id in s.Pool(queue) then 1 else 0
    ensures Hits(settled.shelf.docs, queue, [id]) == if HasDoc(s.shelf.docs, queue, id) then 1 else 0
  {
    SettleKeepsIds(s, kind, queue, id, reply, now, settled);
    RemovedPool(settled, queue, [id], s');
    SizeWithout(settled.Pool(queue), id);
    HitsOne(settled.shelf.docs, queue, id);
    hide S.Next;
    hide Hits;
  }

  lemma SettleKeepsIds(s: S.Sys, kind: LockKind, queue: string, id: string, reply: S.Reply, now: nat, settled: S.Sys)
    requires queue != "" && id != "" && S.Next(s, S.Settle(kind, queue, id, reply), now, settled)
    ensures settled.Pool(queue).Keys == s.Pool(queue).Keys
    ensures HasDoc(settled.shelf.docs, queue, id) <==> HasDoc(s.shelf.docs, queue, id)
  {
    var op := S.AckOp(kind, id, S.ReplyScore(kind, reply, now), reply.lockMs, now);
    var ids :| S.Operates(s, queue, op, ids, settled);
    StepKeepsIds(s.Pool(queue), op, ids, settled.Pool(queue));
    hide Step;
  }

  lemma HitsOne(docs: Docs, queue: string, id: string)
    ensures Hits(docs, queue, [id]) == if HasDoc(docs, queue, id) then 1 else 0
  {
    var hits := set i | 0 <= i < |[id]| && HasDoc(docs, queue, [id][i]);
    assert hits == if HasDoc(docs, queue, id) then {0} else {};
  }

  lemma SizeWithout(t: Table, id: string)
    ensures |t - SetOf([id])| == |t| - if id in t then 1 else 0
  {
    var rest := t - SetOf([id]);
    assert id in SetOf([id]) && SetOf([id]) == {id};
    if id in t {
      assert t == rest[id := t[id]];
    } else {
      assert t == rest;
    }
  }

  lemma NamelessChangesNothing(s: S.Sys, kind: LockKind, queue: string, id: string, reply: S.Reply, now: nat, s': S.Sys)
    requires (queue == "" || id == "") && S.Next(s, S.Settle(kind, queue, id, reply), now, s')
    ensures s' == s
  {
  }

  lemma RemovedForGood(s: S.Sys, queue: string, id: string, now: nat, s': S.Sys)
    requires S.Next(s, S.Remove(queue, [id]), now, s')
    ensures !exists d :: Stored(s'.shelf.docs, d) && d.queue == queue && d.id == id
    ensures id !in s'.Pool(queue)
  {
    RemovedPool(s, queue, [id], s');
    assert [id][0] in [id];
  }
}
