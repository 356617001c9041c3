/** The server at work: any sequence of service calls and housekeeping tasks, run on the
    in-memory storage and cache, is a run of `System`. The run theorems hold of it. */
module Server {
  import opened Score
  import opened Pools
  import opened Clock
  import opened StorageModel
  import S = System
  import opened NoLoss
  import M = MemoryPools
  import opened MemoryCaches
  import opened MemoryStorages
  import opened Queues
  import Service
  import Housekeeper
  import ScoreRuns
  import PoolRuns
  import opened Deliveries

  datatype Request =
    | Add(items: seq<S.AddItem>)
    | Pull(queue: string, amount: int, minScore: real, maxScore: real, scoreFilter: int, ackDeadlineMs: int,
           retryAt: nat)
    | Settle(kind: LockKind, queue: string, id: string, reply: S.Reply)
    | SettleAndRemove(kind: LockKind, queue: string, id: string, reply: S.Reply)
    | Remove(queue: string, ids: seq<string>)
    | TimeoutQueue(queue: string)
    | UnlockLocked(queue: string, kind: LockKind)
    | RemoveTTL
    | RemoveExceeding(queue: string, maxElements: int)
    | Recover(scanAt: nat)
    | Flush
    | LoseCache

  /** The action a request is, at the time it is served. */
  function ActionOf(r: Request, now: nat): S.Action {
    match r
    case Add(items) => S.Add(items)
    case Pull(queue, amount, minScore, maxScore, scoreFilter, ackDeadlineMs, retryAt) =>
      S.Pull(queue, Service.PullOp(amount, minScore, maxScore, scoreFilter, ackDeadlineMs, now), retryAt)
    case Settle(kind, queue, id, reply) => S.Settle(kind, queue, id, reply)
    case SettleAndRemove(kind, queue, id, reply) => S.SettleAndRemove(kind, queue, id, reply)
    case Remove(queue, ids) => S.Remove(queue, ids)
    case TimeoutQueue(queue) => S.Housekeep(Timeout(Sec(now) as real))
    case UnlockLocked(queue, kind) => S.Housekeep(UnlockAt(kind, now))
    case RemoveTTL => S.RemoveExpired
    case RemoveExceeding(queue, maxElements) => S.RemoveExceeding(queue, maxElements)
    case Recover(scanAt) => S.Recover(scanAt)
    case Flush => S.FlushAll
    case LoseCache => S.WipeCache
  }

  lemma NothingRemoved(s: S.Sys, queue: string, now: nat)
    ensures S.Next(s, S.Remove(queue, []), now, s)
  {
    assert Without(s.shelf.docs, queue, []) == s.shelf.docs;
    assert s.Pool(queue) == s.Pool(queue) - SetOf([]);
  }

  /** Housekeeping, a flush, or the loss of the cache. */
  /** What a request gets done beyond being its action: a pull takes the wanted messages from the front
      of its queue, and a timeout or unlock does not idle while something is due. */
  ghost predicate GetsDone(s: S.Sys, r: Request, now: nat, s': S.Sys) {
    match r
    case Pull(queue, amount, minScore, maxScore, scoreFilter, ackDeadlineMs, retryAt) =>
      exists ids, messages ::
        && Service.Takes(s.Pool(queue), amount, minScore, maxScore, scoreFilter, now, ids)
        && PullAnswer(s.shelf.docs, queue, ids, now, retryAt, messages)
        && Delivered(s, queue, ids, MemoryDeadline(now, ackDeadlineMs), messages, s')
    case TimeoutQueue(queue) =>
      s'.Pool(queue) == s.Pool(queue) <==> PoolRuns.Due(s.Pool(queue), Timeout(Sec(now) as real)) == {}
    case UnlockLocked(_, kind) =>
      forall other :: s'.Pool(other) == s.Pool(other) <==> PoolRuns.Due(s.Pool(other), UnlockAt(kind, now)) == {}
    case _ => true
  }

  predicate IsTask(r: Request) {
    r.TimeoutQueue? || r.UnlockLocked? || r.RemoveTTL? || r.RemoveExceeding? || r.Recover? || r.Flush? || r.LoseCache?
  }

  lemma ChangedByTimeout(t: Table, now: nat, ids: seq<string>, t': Table)
    requires Step(t, Timeout(Sec(now) as real), ids, t')
    ensures t' == t <==> ids == []
  {
    if ids != [] {
      assert ids[0] in ids;
      assert t[ids[0]] != t'[ids[0]];
    }
  }

  method ServeTask(pool: Queue, r: Request, now: nat)
    requires pool.Valid() && IsTask(r)
    modifies pool.storage, pool.cache
    ensures pool.Valid()
    ensures S.Next(old(pool.Snapshot()), ActionOf(r, now), now, pool.Snapshot())
    ensures GetsDone(old(pool.Snapshot()), r, now, pool.Snapshot())
  {
    hide TablesOf;
    hide M.Inv;
    hide ShelfInv;
    hide S.SweepStep;
    hide S.ExpiredStep;
    hide S.ExceedingStep;
    hide S.RecoverStep;
    match r
    case TimeoutQueue(queue) =>
      var ids := pool.TimeoutMessages(queue, now);
      ChangedByTimeout(old(pool.Snapshot()).Pool(queue), now, ids, pool.Snapshot().Pool(queue));
    case UnlockLocked(queue, kind) =>
      var _ := pool.UnlockMessages(queue, kind, now);
    case RemoveTTL =>
      var _, _ := Housekeeper.RemoveTTLMessages(pool, now);
    case RemoveExceeding(queue, maxElements) =>
      var _ := Housekeeper.RemoveExceedingMessages(pool, queue, maxElements, now);
    case Recover(scanAt) =>
      var _, _, _ := Housekeeper.RecoveryMessagesPool(pool, now, scanAt);
    case Flush =>
      pool.Flush();
    case LoseCache =>
      pool.WipeCache();
  }

  /** Any request is its action. */
  method Serve(pool: Queue, r: Request, now: nat)
    requires pool.Valid()
    modifies pool.storage, pool.cache
    ensures pool.Valid()
    ensures S.Next(old(pool.Snapshot()), ActionOf(r, now), now, pool.Snapshot())
    ensures GetsDone(old(pool.Snapshot()), r, now, pool.Snapshot())
  {
    hide TablesOf;
    hide M.Inv;
    hide ShelfInv;
    hide S.AddStep;
    hide S.ReconcileStep;
    hide S.AckStep;
    hide S.RemoveStep;
    if IsTask(r) {
      ServeTask(pool, r, now);
      return;
    }
    match r
    case Add(items) =>
      var _ := Service.Add(pool, items, now);
    case Pull(queue, amount, minScore, maxScore, scoreFilter, ackDeadlineMs, retryAt) =>
      var messages, ids :=
        Service.Pull(pool, queue, amount, minScore, maxScore, scoreFilter, ackDeadlineMs, now, retryAt);
    case Settle(kind, queue, id, reply) =>
      var _ := Service.Settle(pool, kind, queue, id, reply, now);
    case SettleAndRemove(kind, queue, id, reply) =>
      var _, _, _ := Service.SettleAndRemove(pool, kind, queue, id, reply, now);
    case Remove(queue, ids) =>
      NothingRemoved(pool.Snapshot(), queue, now);
      var _, _ := Service.Remove(pool, queue, ids, now);
  }

  /** Requests with the clock readings they are served at; a recovery reads the clock twice. */
  predicate Schedule(requests: seq<Request>, times: seq<nat>) {
    && |times| == |requests|
    && forall i | 0 < i < |requests| :: LastReading(ActionOf(requests[i - 1], times[i - 1]), times[i - 1]) <= times[i]
  }

  /** The last clock reading of a schedule. */
  function EndOf(requests: seq<Request>, times: seq<nat>): nat
    requires |times| == |requests|
  {
    if requests == [] then 0
    else
      var n := |requests| - 1;
      LastReading(ActionOf(requests[n], times[n]), times[n])
  }

  ghost predicate RunOf(run: Run, requests: seq<Request>, times: seq<nat>, n: nat)
    requires n <= |requests| == |times|
  {
    && run.Valid() && |run.actions| == n && run.times == times[..n]
    && (forall i | 0 <= i < n :: run.actions[i] == ActionOf(requests[i], times[i]))
    && (forall i | 0 <= i < n :: GetsDone(run.states[i], requests[i], times[i], run.states[i + 1]))
  }

  method Start() returns (pool: Queue)
    ensures fresh(pool.storage) && fresh(pool.cache)
    ensures pool.Valid() && pool.Snapshot() == S.EMPTY
  {
    var storage := new MemoryStorage();
    var cache := new MemoryCache();
    pool := new Queue(storage, cache);
    assert TablesOf(cache.State()) == map[];
  }

  /** Serving any schedule from an empty server is a run, and it ends in the server's state. */
  method ServeAll(requests: seq<Request>, times: seq<nat>) returns (pool: Queue, ghost run: Run)
    requires Schedule(requests, times)
    ensures pool.Valid() && RunOf(run, requests, times, |requests|) && run.states[|requests|] == pool.Snapshot()
  {
    hide S.Next;
    hide GetsDone;
    hide TablesOf;
    pool := Start();
    run := Run([pool.Snapshot()], [], []);
    for i := 0 to |requests|
      invariant fresh(pool.storage) && fresh(pool.cache)
      invariant pool.Valid() && RunOf(run, requests, times, i) && run.states[i] == pool.Snapshot()
    {
      Serve(pool, requests[i], times[i]);
      run := Extend(run, requests, times, i, pool.Snapshot());
    }
    assert times[..|times|] == times;
  }

  lemma Extend(run: Run, requests: seq<Request>, times: seq<nat>, i: nat, s: S.Sys) returns (longer: Run)
    requires Schedule(requests, times) && i < |requests| && RunOf(run, requests, times, i)
    requires S.Next(run.states[i], ActionOf(requests[i], times[i]), times[i], s)
    requires GetsDone(run.states[i], requests[i], times[i], s)
    ensures RunOf(longer, requests, times, i + 1) && longer.states[i + 1] == s
  {
    hide S.Next;
    hide GetsDone;
    hide ActionOf;
    longer := Run(run.states + [s], run.actions + [ActionOf(requests[i], times[i])], run.times + [times[i]]);
    assert times[..i + 1] == times[..i] + [times[i]];
  }

  /** On the server an unlock request makes a message active only if an Ack or Nack locked it and the
      requested milliseconds have passed since. The message gets the score that request named; without
      one it gets the time of the unlock after an Ack and 0 after a Nack. */
  lemma UnlockedOnServer(run: Run, requests: seq<Request>, times: seq<nat>, j: nat, queue: string, id: string)
    returns (i: nat)
    requires |times| == |requests| && RunOf(run, requests, times, |requests|) && j < |requests|
    requires requests[j].UnlockLocked?
    requires !IsActive(run.states[j], queue, id) && IsActive(run.states[j + 1], queue, id)
    ensures i < j && requests[i].Settle? && requests[i].kind == requests[j].kind
    ensures requests[i].queue == queue && requests[i].id == id && requests[i].reply.lockMs > 0
    ensures Ms(times[i]) + requests[i].reply.lockMs <= Ms(times[j])
    ensures var asked := requests[i].reply.requested;
            IsAt(run.states[j + 1], queue, id,
                 Active(if asked != 0.0 && asked != -1.0 then asked
                        else if requests[j].kind == LockAck then Ms(times[j]) as real
                        else 0.0))
  {
    hide S.Next;
    hide GetsDone;
    assert run.actions[j] == ActionOf(requests[j], times[j]);
    i := ServiceUnlockRestoresScore(run, j, queue, id);
    assert run.actions[i] == ActionOf(requests[i], times[i]) && run.times[i] == times[i];
  }

  /** On the server a timeout request makes a message active only if a Pull handed it out and as many
      seconds have passed as milliseconds were asked for, 300000 without a request. It gets score 0. */
  lemma TimedOutOnServer(run: Run, requests: seq<Request>, times: seq<nat>, j: nat, queue: string, id: string)
    returns (i: nat)
    requires |times| == |requests| && RunOf(run, requests, times, |requests|) && j < |requests|
    requires requests[j].TimeoutQueue?
    requires !IsActive(run.states[j], queue, id) && IsActive(run.states[j + 1], queue, id)
    ensures i < j && requests[i].Pull? && requests[i].queue == queue
    ensures var wait := requests[i].ackDeadlineMs;
            Sec(times[i]) + (if wait == 0 then 300_000 else wait) <= Sec(times[j])
    ensures IsAt(run.states[j + 1], queue, id, Active(0.0))
  {
    hide S.Next;
    hide GetsDone;
    assert run.actions[j] == ActionOf(requests[j], times[j]);
    i := ServiceTimeoutNeverEarly(run, j, queue, id);
    assert run.actions[i] == ActionOf(requests[i], times[i]) && run.times[i] == times[i];
  }

  /** The no-loss theorem for the server: after any schedule whose added messages have queues, and
      ids without ':', every stored message that has not expired is in a pool of its queue, or a
      recovery scan has yet to reach it. */
  method ServeWithoutLoss(requests: seq<Request>, times: seq<nat>) returns (pool: Queue)
    requires Schedule(requests, times)
    requires forall i | 0 <= i < |requests| && requests[i].Add? ::
               forall j | 0 <= j < |requests[i].items| :: S.Addable(requests[i].items[j])
                 && ColonFree(requests[i].items[j].id)
    ensures pool.Valid()
    ensures forall d | Stored(pool.storage.docs, d) && Live(d, EndOf(requests, times)) ::
              d.id in pool.Snapshot().Pool(d.queue) || Ahead(pool.cache.keys, d)
  {
    hide TablesOf;
    hide S.Next;
    ghost var run;
    pool, run := ServeAll(requests, times);
    var n := |requests|;
    forall i | 0 <= i < n ensures Plain(run.actions[i]) {
      assert run.actions[i] == ActionOf(requests[i], times[i]);
    }
    forall d | Stored(pool.storage.docs, d) && Live(d, run.Clock(n))
      ensures d.id in pool.Snapshot().Pool(d.queue) || Ahead(pool.cache.keys, d)
    {
      NoLiveMessageLost(run, n, d);
    }
  }

  /** The exact form: the server keeps every live message within reach throughout a schedule if and
      only if the batch of each Add request is safe when it arrives. */
  method ServeWithoutLossIff(requests: seq<Request>, times: seq<nat>) returns (pool: Queue, ghost run: Run)
    requires Schedule(requests, times)
    ensures pool.Valid() && RunOf(run, requests, times, |requests|) && run.states[|requests|] == pool.Snapshot()
    ensures (forall i | 0 <= i <= |requests| :: CoveredAt(run, i))
            <==> (forall j | 0 <= j < |requests| && requests[j].Add? :: SafeAt(run, j))
  {
    hide TablesOf;
    hide S.Next;
    pool, run := ServeAll(requests, times);
    NoLossIff(run);
    forall j | 0 <= j < |requests| && !requests[j].Add? ensures SafeAt(run, j) {
      assert run.actions[j] == ActionOf(requests[j], times[j]);
    }
    hide SafeAt;
    hide CoveredAt;
  }

  /** A request that asks for scores in range, at a clock reading that is itself a score. */
  predicate Fitting(r: Request, now: nat) {
    && (Ms(now) as real) <= MAX
    && (r.Settle? || r.SettleAndRemove? ==> ScoreRuns.AckFits(r.reply.requested, r.reply.lockMs))
  }

  /** After any schedule of fitting requests all active scores on the server are in range. */
  method ServeInRange(requests: seq<Request>, times: seq<nat>) returns (pool: Queue)
    requires Schedule(requests, times) && forall i | 0 <= i < |requests| :: Fitting(requests[i], times[i])
    ensures pool.Valid()
    ensures forall queue, id | id in pool.Snapshot().Pool(queue) && pool.Snapshot().Pool(queue)[id].Active? ::
              InBounds(pool.Snapshot().Pool(queue)[id].score)
  {
    hide TablesOf;
    hide S.Next;
    ghost var run;
    pool, run := ServeAll(requests, times);
    forall i | 0 <= i < |requests| ensures ScoreRuns.Sensible(run.actions[i], run.times[i]) {
      assert run.actions[i] == ActionOf(requests[i], times[i]) && Fitting(requests[i], times[i]);
    }
    forall queue, id | id in pool.Snapshot().Pool(queue) && pool.Snapshot().Pool(queue)[id].Active?
      ensures InBounds(pool.Snapshot().Pool(queue)[id].score)
    {
      ScoreRuns.ActiveScoresStayInRange(run, |requests|, queue, id);
    }
  }
}
