/** Queue names with a brace, which the Redis cache rejects and storage does not. An Add of such a
    message stores it and caches it nowhere, and a recovery batch that holds one does not advance. */
module BracedQueues {
  import opened Pools
  import opened StorageModel
  import opened RecoveryKeys
  import opened System
  import opened NoLoss
  import opened RecoveryRuns
  import opened RedisKeys
  import opened RedisCaches
  import opened RedisSystem

  /** What the insertion of a batch over Redis leaves, as `AddMessagesToCache` and `RedisFills` say. */
  ghost predicate RedisInserts(s: Sys, messages: seq<QueuedMsg>, s': Sys) {
    exists done :: InsertsIn(s, messages, done, s')
  }

  ghost predicate InsertsIn(s: Sys, messages: seq<QueuedMsg>, done: set<string>, s': Sys) {
    && (forall queue | queue in done :: ValidName(queue))
    && PartlyFills(s, messages, done, s')
    && (AllNamed(messages) ==> forall queue | queue !in done :: Part(messages, queue) == [])
  }

  /** The method's contract, seen by the system. */
  lemma BatchInserts(s: Sys, db: Database, s': Sys, db': Database, prefix: string, messages: seq<QueuedMsg>,
                     done: set<string>)
    requires ValidDb(db, prefix) && Shows(s, db, prefix) && Shows(s', db', prefix)
    requires PartlyInserted(db, db', prefix, messages, done)
    requires forall queue | queue in done :: ValidName(queue)
    requires AllNamed(messages) ==> forall queue | queue !in done :: Part(messages, queue) == []
    ensures RedisInserts(s, messages, s')
  {
    RedisFills(s, db, s', db', prefix, messages, done);
    hide Shows;
    hide PartlyInserted;
    hide PartlyFills;
    hide Part;
    hide ValidName;
    assert InsertsIn(s, messages, done, s');
  }

  /** No pool has a name with a brace. */
  ghost predicate NoBraced(s: Sys) {
    forall queue | !ValidName(queue) :: s.Pool(queue) == map[]
  }

  /** No call other than an insertion creates a pool, and an insertion rejects the name. */
  lemma OperationKeepsNoBraced(s: Sys, queue: string, op: Op, reply: seq<string>, s': Sys)
    requires NoBraced(s) && Operates(s, queue, op, reply, s') && (op.Insert? ==> ValidName(queue))
    ensures NoBraced(s')
  {
    hide ValidName;
  }

  lemma InsertKeepsNoBraced(s: Sys, messages: seq<QueuedMsg>, s': Sys)
    requires NoBraced(s) && RedisInserts(s, messages, s')
    ensures NoBraced(s')
  {
    var done :| InsertsIn(s, messages, done, s');
  }

  /** The insertion does what the system asks, and caches every message of the batch, exactly when
      no queue of the batch has a brace in its name. */
  lemma RedisInsertIff(s: Sys, messages: seq<QueuedMsg>, s': Sys)
    requires NoBraced(s) && RedisInserts(s, messages, s')
    ensures (forall queue :: Fills(s.Pool(queue), Part(messages, queue), s'.Pool(queue))) <==> AllNamed(messages)
    ensures (forall i | 0 <= i < |messages| :: messages[i].id in s'.Pool(messages[i].queue)) <==> AllNamed(messages)
  {
    var done :| InsertsIn(s, messages, done, s');
    hide ValidName;
    if AllNamed(messages) {
      forall queue ensures Fills(s.Pool(queue), Part(messages, queue), s'.Pool(queue)) {
        if queue !in done {
          assert Latest([]) == map[];
        }
      }
      forall i | 0 <= i < |messages| ensures messages[i].id in s'.Pool(messages[i].queue) {
        PartHolds(messages, i);
        assert Fills(s.Pool(messages[i].queue), Part(messages, messages[i].queue), s'.Pool(messages[i].queue));
      }
    } else {
      var i :| 0 <= i < |messages| && !ValidName(messages[i].queue);
      InsertKeepsNoBraced(s, messages, s');
      PartHolds(messages, i);
      assert s'.Pool(messages[i].queue) == map[];
    }
    hide Fills;
    hide Part;
  }

  /** Over Redis an Add that stores its batch is an Add of the system exactly when no queue of the
      batch has a brace, and exactly then caches all of it. */
  lemma RedisAddIff(s: Sys, messages: seq<NewMessage>, s': Sys)
    requires NoBraced(s) && RedisInserts(s, Queued(messages), s')
    requires s'.shelf == Put(s.shelf, messages) && s'.keys == s.keys
    ensures AddStep(s, messages, s') <==> AllNamed(Queued(messages))
    ensures (forall m | m in messages :: m.id in s'.Pool(m.queue)) <==> AllNamed(Queued(messages))
  {
    var queued := Queued(messages);
    RedisInsertIff(s, queued, s');
    assert forall i | 0 <= i < |messages| :: queued[i].id == messages[i].id && queued[i].queue == messages[i].queue;
    hide Put;
    hide Fills;
    hide RedisInserts;
    hide AllNamed;
  }

  /** A live document of a queue with a brace is within reach only while a scan has yet to come to it. */
  lemma BracedReachedIff(s: Sys, d: Doc)
    requires NoBraced(s) && !ValidName(d.queue)
    ensures Covers(s, d) <==> Ahead(s.keys, d)
  {
    assert s.Pool(d.queue) == map[];
  }

  // ---------- recovery over Redis ----------

  /** One recovery batch: when the cache rejects a queue, the call ends before the breakpoint moves. */
  ghost predicate RedisScanStep(s: Sys, keys: Keys, scanAt: nat, batch: seq<Doc>, s': Sys) {
    && Answers(s.shelf.docs, scanAt, ScanFilter(keys), ByIdAscending, RECOVERY_BATCH, batch)
    && s'.shelf == s.shelf && RedisInserts(s, Recalled(batch), s')
    && s'.keys == if AllNamed(Recalled(batch)) then AfterBatch(keys, batch) else keys
  }

  /** A batch over Redis is a batch of the system, and moves the breakpoint or finishes, exactly when
      it holds no document of a queue with a brace. */
  lemma RedisScanIff(s: Sys, keys: Keys, scanAt: nat, batch: seq<Doc>, s': Sys)
    requires NoBraced(s) && !keys.scanned.Finished? && RedisScanStep(s, keys, scanAt, batch, s')
    ensures NoBraced(s')
    ensures ScanStep(s, keys, scanAt, batch, s') <==> AllNamed(Recalled(batch))
    ensures s'.keys == keys <==> !AllNamed(Recalled(batch))
  {
    InsertKeepsNoBraced(s, Recalled(batch), s');
    RedisInsertIff(s, Recalled(batch), s');
    if |batch| == RECOVERY_BATCH {
      assert batch[|batch| - 1] in batch;
    }
    hide Fills;
    hide RedisInserts;
    hide AllNamed;
    hide ValidName;
  }

  /** One recovery call, from its start. */
  ghost predicate RedisRecoverStep(s: Sys, now: nat, scanAt: nat, last: seq<Doc>, batch: seq<Doc>, s': Sys) {
    if s.keys.scanned.Finished? then s' == s
    else if MustStart(s.keys) then
      && Answers(s.shelf.docs, now, ANY, ByIdDescending, 1, last)
      && if last == [] then s' == s.(keys := Started(s.keys, last))
         else RedisScanStep(s, Started(s.keys, last), scanAt, batch, s')
    else RedisScanStep(s, s.keys, scanAt, batch, s')
  }

  /** A recovery call reads no batch when recovery is over or storage is empty. */
  predicate Scans(s: Sys, last: seq<Doc>) {
    !s.keys.scanned.Finished? && (MustStart(s.keys) ==> last != [])
  }

  /** A recovery call over Redis is one of the system exactly when it reads no batch or its batch holds
      no document of a queue with a brace. */
  lemma RedisRecoverIff(s: Sys, now: nat, scanAt: nat, last: seq<Doc>, batch: seq<Doc>, s': Sys)
    requires NoBraced(s) && RedisRecoverStep(s, now, scanAt, last, batch, s')
    ensures NoBraced(s')
    ensures RecoverStep(s, now, scanAt, last, batch, s') <==> !Scans(s, last) || AllNamed(Recalled(batch))
  {
    if Scans(s, last) {
      RedisScanIff(s, if MustStart(s.keys) then Started(s.keys, last) else s.keys, scanAt, batch, s');
    }
    hide RedisScanStep;
    hide ScanStep;
    hide Answers;
    hide AllNamed;
  }

  ghost predicate RedisRecovers(s: Sys, now: nat, scanAt: nat, s': Sys) {
    exists last, batch :: RedisRecoverStep(s, now, scanAt, last, batch, s')
  }

  /** Recovery calls one after the other, against fixed storage and a clock that moves on. */
  ghost predicate RedisCalls(states: seq<Sys>, times: seq<nat>, scans: seq<nat>) {
    && |states| == |scans| + 1 && |times| == |scans|
    && (forall i, j | 0 <= i <= j < |scans| :: scans[i] <= scans[j])
    && (forall i | 0 <= i < |scans| :: RedisRecovers(states[i], times[i], scans[i], states[i + 1]))
  }

  /** A document that is in a batch stays in it as long as it is live. */
  lemma StaysInBatch(shelf: Shelf, keys: Keys, now: int, later: int, b: seq<Doc>, d: Doc)
    requires ShelfInv(shelf) && now <= later && Stored(shelf.docs, d) && Live(d, later)
    requires Selected(d, ScanFilter(keys), now) && |UpTo(shelf.docs, keys, now, d.internalId)| <= RECOVERY_BATCH
    requires Answers(shelf.docs, later, ScanFilter(keys), ByIdAscending, RECOVERY_BATCH, b)
    ensures d in b
  {
    assert UpTo(shelf.docs, keys, later, d.internalId) <= UpTo(shelf.docs, keys, now, d.internalId);
    SubsetSize(UpTo(shelf.docs, keys, later, d.internalId), UpTo(shelf.docs, keys, now, d.internalId));
    InBatchIff(shelf, keys, later, b, d);
  }

  lemma BracedBatch(batch: seq<Doc>, d: Doc)
    requires d in batch && !ValidName(d.queue)
    ensures !AllNamed(Recalled(batch))
  {
    var i :| 0 <= i < |batch| && batch[i] == d;
    assert Recalled(batch)[i].queue == d.queue;
  }

  /** Recovery over Redis does not get past a batch with a document of a queue with a brace: as long
      as that document is live, no number of calls moves the breakpoint or ends the recovery. */
  lemma {:induction false} RedisStalls(states: seq<Sys>, times: seq<nat>, scans: seq<nat>, d: Doc, i: nat)
    requires RedisCalls(states, times, scans) && 0 < i < |states| && ShelfInv(states[0].shelf)
    requires states[0].keys.running && !states[0].keys.scanned.Finished?
    requires Stored(states[0].shelf.docs, d) && !ValidName(d.queue) && Live(d, scans[i - 1])
    requires Selected(d, ScanFilter(states[0].keys), scans[0])
    requires |UpTo(states[0].shelf.docs, states[0].keys, scans[0], d.internalId)| <= 4000
    ensures states[i].shelf == states[0].shelf && states[i].keys == states[0].keys
  {
    hide ShelfInv;
    hide RedisInserts;
    hide Answers;
    hide Selected;
    hide UpTo;
    if i == 1 {
    } else {
      RedisStalls(states, times, scans, d, i - 1);
    }
    var s := states[i - 1];
    assert RedisRecovers(s, times[i - 1], scans[i - 1], states[i]);
    var last, batch :| RedisRecoverStep(s, times[i - 1], scans[i - 1], last, batch, states[i]);
    StaysInBatch(s.shelf, s.keys, scans[0], scans[i - 1], batch, d);
    BracedBatch(batch, d);
  }

  // ---------- a concrete stranded message ----------

  const BRACED := NewMessage("a{", "x", 7.0, 1_000_000_000, true, "")

  /** Recovery is over and nothing is stored; an Add over Redis of one message to a queue with a brace
      leaves it stored and live, in no pool and ahead of no scan. */
  lemma AddStrandsBraced(s: Sys, s': Sys)
    requires s == Sys(Shelf(map[], 0), map[], Keys(false, Finished, RecoveryKeys.Unset))
    requires s'.shelf == Put(s.shelf, [BRACED]) && s'.keys == s.keys
    requires RedisInserts(s, Queued([BRACED]), s')
    ensures exists d :: Stored(s'.shelf.docs, d) && d.queue == "a{" && d.id == "x" && Live(d, 0) && !Covers(s', d)
  {
  }
}
