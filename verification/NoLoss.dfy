/** No live message is lost: over any run of whole operations, including wipes of the cache,
    every unexpired stored message is in a pool of its queue or still ahead of an unfinished
    recovery scan. */
module NoLoss {
  import opened Pools
  import opened StorageModel
  import opened RecoveryKeys
  import opened System

  /** The document lies between the breakpoint and the target of an unfinished recovery. */
  predicate Ahead(keys: Keys, d: Doc) {
    && !keys.scanned.Finished?
    && (keys.scanned.At? ==> keys.scanned.internalId < d.internalId)
    && (keys.target.At? ==> d.internalId <= keys.target.internalId)
  }

  ghost predicate Covers(s: Sys, d: Doc) {
    s.Cached(d) || Ahead(s.keys, d)
  }

  ghost predicate Covered(s: Sys, now: int) {
    forall d | Stored(s.shelf.docs, d) && Live(d, now) :: Covers(s, d)
  }

  predicate KeysInv(keys: Keys) {
    && !keys.target.Finished?
    && (keys.scanned.At? ==> keys.running)
    && (keys.scanned.Unset? && !keys.running ==> keys.target.Unset?)
  }

  predicate Below(b: Breakpoint, counter: int) {
    b.At? ==> b.internalId <= counter
  }

  /** The scan never aims past the last document ever numbered. */
  predicate KeysBelow(s: Sys) {
    Below(s.keys.scanned, s.shelf.counter) && Below(s.keys.target, s.shelf.counter)
  }

  ghost predicate Inv(s: Sys, now: int) {
    ShelfInv(s.shelf) && KeysInv(s.keys) && KeysBelow(s) && Covered(s, now)
  }

  // ---------- small facts ----------

  lemma LaterInv(s: Sys, now: int, later: int)
    requires Inv(s, now) && now <= later
    ensures Inv(s, later)
  {
  }

  // ---------- one lemma per action ----------

  ghost predicate AllValid(messages: seq<NewMessage>) {
    forall i | 0 <= i < |messages| :: messages[i].Valid()
  }

  predicate NamedIn(messages: seq<NewMessage>, queue: string, id: string) {
    exists i | 0 <= i < |messages| :: messages[i].queue == queue && messages[i].id == id
  }

  /** The document under a message's key can still be reached: it is not live, it is cached or
      ahead of the scan already, or the batch names it. Keys join queue and id with ':', so a
      message can renew the document of another queue and id, which the batch need not name. */
  ghost predicate Reached(s: Sys, docs: Docs, named: seq<NewMessage>, m: NewMessage, now: int) {
    m.Key() in docs &&
    var d := docs[m.Key()];
    !Live(d, now) || s.Cached(d) || Ahead(s.keys, d) || NamedIn(named, d.queue, d.id)
  }

  // ---------- which batches are safe, told before they are added ----------

  /** The batch gives new life to an expired document that no pool holds and no scan will reach,
      and that `named` does not name. */
  ghost predicate Revives(s: Sys, messages: seq<NewMessage>, named: seq<NewMessage>, m: NewMessage, now: int) {
    m.Key() in s.shelf.docs &&
    var d, expiry := s.shelf.docs[m.Key()], LastExpiry(messages, m.Key());
    && !Live(d, now) && expiry.Some? && now < expiry.value
    && !s.Cached(d) && !Ahead(s.keys, d) && !NamedIn(named, d.queue, d.id)
  }

  /** The batch stores a new live document that the cache does not hold, too late for the scan. */
  ghost predicate Strands(s: Sys, messages: seq<NewMessage>, m: NewMessage, now: int) {
    m.Key() !in s.shelf.docs && FirstFor(messages, m.Key()) < |messages| &&
    var first, expiry := messages[FirstFor(messages, m.Key())], LastExpiry(messages, m.Key());
    && (first.timeless || (expiry.Some? && now < expiry.value))
    && first.id !in s.Pool(first.queue) && (s.keys.scanned.Finished? || s.keys.target.At?)
  }

  ghost predicate SafeAdd(s: Sys, messages: seq<NewMessage>, now: int) {
    forall i | 0 <= i < |messages| :: !Revives(s, messages, messages, messages[i], now)
  }

  ghost predicate SafeFailure(s: Sys, messages: seq<NewMessage>, now: int) {
    forall i | 0 <= i < |messages| ::
      !Revives(s, messages, [], messages[i], now) && !Strands(s, messages, messages[i], now)
  }

  /** A stored document under the key of a message can be reached unless the batch revives it. */
  lemma KnownKeyReachedIff(s: Sys, messages: seq<NewMessage>, named: seq<NewMessage>, i: nat, now: int)
    requires Inv(s, now) && i < |messages| && messages[i].Key() in s.shelf.docs
    ensures Reached(s, Put(s.shelf, messages).docs, named, messages[i], now)
            <==> !Revives(s, messages, named, messages[i], now)
  {
    var k := messages[i].Key();
    PutKeepsIdentity(s.shelf, messages, k);
    PutExpiry(s.shelf, messages, k);
    HasExpiry(messages, i);
    var d := s.shelf.docs[k];
    assert Stored(s.shelf.docs, d);
    assert Live(d, now) ==> Covers(s, d);
    hide NamedIn;
  }

  lemma {:induction false} HasExpiry(messages: seq<NewMessage>, i: nat)
    requires i < |messages|
    ensures LastExpiry(messages, messages[i].Key()).Some?
  {
    var n := |messages| - 1;
    if i < n {
      HasExpiry(messages[..n], i);
    }
  }

  /** A new document is named by its batch; the scan reaches it only if it has no target yet. */
  lemma NewKeyReached(s: Sys, messages: seq<NewMessage>, i: nat, now: int)
    requires Inv(s, now) && i < |messages| && messages[i].Key() !in s.shelf.docs
    ensures Reached(s, Put(s.shelf, messages).docs, messages, messages[i], now)
    ensures Reached(s, Put(s.shelf, messages).docs, [], messages[i], now) <==> !Strands(s, messages, messages[i], now)
  {
    var k := messages[i].Key();
    PutHolds(s.shelf, messages, k);
    PutNames(s.shelf, messages, k);
    PutExpiry(s.shelf, messages, k);
    HasExpiry(messages, i);
    var first := messages[FirstFor(messages, k)];
    assert NamedIn(messages, first.queue, first.id) && !NamedIn([], first.queue, first.id);
    NewNumberAhead(s, Put(s.shelf, messages).docs[k]);
    hide Put;
    hide NamedIn;
    hide Ahead;
    hide LastExpiry;
    hide Inv;
  }

  lemma NewNumberAhead(s: Sys, d: Doc)
    requires KeysInv(s.keys) && KeysBelow(s) && s.shelf.counter < d.internalId
    ensures Ahead(s.keys, d) <==> !s.keys.scanned.Finished? && !s.keys.target.At?
  {
  }

  lemma AnswerBelow(shelf: Shelf, answer: seq<Doc>, i: nat)
    requires ShelfInv(shelf) && i < |answer| && forall d | d in answer :: Stored(shelf.docs, d)
    ensures answer[i].internalId <= shelf.counter
  {
    assert answer[i] in answer;
    assert Sound(shelf, shelf.docs[KeyOf(answer[i])]);
  }

  lemma QueuedIff(messages: seq<NewMessage>, queue: string, id: string)
    ensures id in Latest(Part(Queued(messages), queue)) <==> NamedIn(messages, queue, id)
  {
    if id in Latest(Part(Queued(messages), queue)) {
      var i := PartComesFrom(Queued(messages), queue, id);
      assert messages[i].queue == queue && messages[i].id == id;
    }
    if i :| 0 <= i < |messages| && messages[i].queue == queue && messages[i].id == id {
      PartHolds(Queued(messages), i);
    }
  }

  /** What a batch of messages leaves covered, when the cache takes in those that `named` names. */
  lemma PutCoveredIff(s: Sys, messages: seq<NewMessage>, named: seq<NewMessage>, s': Sys, now: int)
    requires ShelfInv(s.shelf) && Covered(s, now) && AllValid(messages)
    requires s'.shelf == Put(s.shelf, messages) && s'.keys == s.keys
    requires forall queue, id :: id in s'.Pool(queue) <==> id in s.Pool(queue) || NamedIn(named, queue, id)
    ensures Covered(s', now)
            <==> forall i | 0 <= i < |messages| :: Reached(s, s'.shelf.docs, named, messages[i], now)
  {
    var docs := s'.shelf.docs;
    PutKeepsInv(s.shelf, messages);
    forall i | 0 <= i < |messages| ensures messages[i].Key() in docs && Stored(docs, docs[messages[i].Key()]) {
      PutHolds(s.shelf, messages, messages[i].Key());
    }
    hide Put;
    hide NamedIn;
    hide Ahead;
    if forall i | 0 <= i < |messages| :: Reached(s, docs, named, messages[i], now) {
      forall d | Stored(docs, d) && Live(d, now) ensures Covers(s', d) {
        PutTouches(s.shelf, messages, KeyOf(d));
        if KeyOf(d) in s.shelf.docs && docs[KeyOf(d)] == s.shelf.docs[KeyOf(d)] {
          assert Covers(s, d);
        } else {
          var i :| 0 <= i < |messages| && messages[i].Key() == KeyOf(d);
          assert Reached(s, docs, named, messages[i], now);
        }
      }
    }
    if Covered(s', now) {
      forall i | 0 <= i < |messages| ensures Reached(s, docs, named, messages[i], now) {
        assert Live(docs[messages[i].Key()], now) ==> Covers(s', docs[messages[i].Key()]);
      }
    }
  }

  /** An Add loses no live message exactly when it revives no unreachable document. */
  lemma AddLosesNothingIff(s: Sys, messages: seq<NewMessage>, s': Sys, now: int)
    requires Inv(s, now) && AllValid(messages) && AddStep(s, messages, s')
    ensures Inv(s', now) <==> SafeAdd(s, messages, now)
  {
    PutKeepsInv(s.shelf, messages);
    forall queue, id ensures id in s'.Pool(queue) <==> id in s.Pool(queue) || NamedIn(messages, queue, id) {
      assert Fills(s.Pool(queue), Part(Queued(messages), queue), s'.Pool(queue));
      QueuedIff(messages, queue, id);
    }
    hide AddStep;
    PutCoveredIff(s, messages, messages, s', now);
    PutCounts(s.shelf, messages);
    forall i | 0 <= i < |messages|
      ensures Reached(s, s'.shelf.docs, messages, messages[i], now)
              <==> !Revives(s, messages, messages, messages[i], now)
    {
      if messages[i].Key() in s.shelf.docs {
        KnownKeyReachedIff(s, messages, messages, i, now);
      } else {
        NewKeyReached(s, messages, i, now);
      }
    }
    hide Reached;
    hide Revives;
    hide Covered;
  }

  /** An Add that fails half way loses no live message exactly when it revives no unreachable
      document and strands no new one. */
  lemma FailedAddLosesNothingIff(s: Sys, messages: seq<NewMessage>, s': Sys, now: int)
    requires Inv(s, now) && AllValid(messages) && FailedAddStep(s, messages, s')
    ensures Inv(s', now) <==> SafeFailure(s, messages, now)
  {
    PutKeepsInv(s.shelf, messages);
    PutCounts(s.shelf, messages);
    PutCoveredIff(s, messages, [], s', now);
    forall i | 0 <= i < |messages|
      ensures Reached(s, s'.shelf.docs, [], messages[i], now)
              <==> !Revives(s, messages, [], messages[i], now) && !Strands(s, messages, messages[i], now)
    {
      if messages[i].Key() in s.shelf.docs {
        KnownKeyReachedIff(s, messages, [], i, now);
      } else {
        NewKeyReached(s, messages, i, now);
      }
    }
    hide Reached;
    hide Revives;
    hide Strands;
    hide Covered;
  }

  lemma PullKeeps(s: Sys, queue: string, op: Op, ids: seq<string>, now: nat, retryAt: nat, s': Sys, end: int)
    requires Inv(s, end) && now <= end && op.Pull? && ReconcileStep(s, queue, op, ids, now, retryAt, s')
    ensures Inv(s', end)
  {
    var taken :| Step(s.Pool(queue), op, ids, taken)
                 && s'.Pool(queue) == taken - Purged(s.shelf.docs, queue, ids, now, retryAt);
    StepKeepsIds(s.Pool(queue), op, ids, taken);
    hide Step;
    forall d | Stored(s'.shelf.docs, d) && Live(d, end) ensures Covers(s', d) {
      assert Covers(s, d);
      if s.Cached(d) && d.queue == queue {
        assert Live(d, now);
        assert d.id in ids ==> Found(s.shelf.docs, queue, d.id, now, retryAt);
      }
    }
  }

  lemma AckKeeps(s: Sys, kind: LockKind, queue: string, id: string, score: real, lockMs: int, now: nat, s': Sys,
                 end: int)
    requires Inv(s, end) && AckStep(s, kind, queue, id, score, lockMs, now, s')
    ensures Inv(s', end)
  {
    if queue != "" && id != "" {
      var op := AckOp(kind, id, score, lockMs, now);
      var ids :| Operates(s, queue, op, ids, s');
      StepKeepsIds(s.Pool(queue), op, ids, s'.Pool(queue));
      hide Step;
      var docs, docs' := s.shelf.docs, s'.shelf.docs;
      forall d | Stored(docs', d) && Live(d, end) ensures Covers(s', d) {
        var was := docs[KeyOf(d)];
        assert Stored(docs, was) && Live(was, end) && Covers(s, was);
      }
      RescoreKeeps(s.shelf, queue, id, score, lockMs);
    }
  }

  lemma RescoreKeeps(shelf: Shelf, queue: string, id: string, score: real, lockMs: int)
    requires ShelfInv(shelf)
    ensures ShelfInv(shelf.(docs := Rescore(shelf.docs, queue, id, score, lockMs)))
  {
  }

  lemma RemoveKeeps(s: Sys, queue: string, ids: seq<string>, s': Sys, end: int)
    requires Inv(s, end) && RemoveStep(s, queue, ids, s')
    ensures Inv(s', end)
  {
    forall d | Stored(s'.shelf.docs, d) && Live(d, end) ensures Covers(s', d) {
      assert Covers(s, d);
    }
  }

  lemma SweepKeeps(s: Sys, op: Op, s': Sys, end: int)
    requires Inv(s, end) && (op.Timeout? || op.Unlock?) && SweepStep(s, op, s')
    ensures Inv(s', end)
  {
    forall queue ensures s'.Pool(queue).Keys == s.Pool(queue).Keys {
      assert Sweeps(s, op, queue, s');
      var ids :| Step(s.Pool(queue), op, ids, s'.Pool(queue));
      StepKeepsIds(s.Pool(queue), op, ids, s'.Pool(queue));
    }
    forall d | Stored(s'.shelf.docs, d) && Live(d, end) ensures Covers(s', d) { assert Covers(s, d); }
  }

  lemma EvictKeeps(s: Sys, victims: seq<Doc>, s': Sys, end: int)
    requires Inv(s, end) && EvictStep(s, victims, s')
    requires forall d | d in victims :: Stored(s.shelf.docs, d)
    ensures Inv(s', end)
  {
    var docs, docs' := s.shelf.docs, s'.shelf.docs;
    forall k | k in docs' ensures k in docs && docs[k] == docs'[k] { assert Stored(docs', docs'[k]); }
    forall d | Stored(docs', d) && Live(d, end) ensures Covers(s', d) {
      assert Covers(s, d);
      NotEvicted(docs, victims, d);
    }
  }

  lemma NotEvicted(docs: Docs, victims: seq<Doc>, d: Doc)
    requires Stored(docs, d) && d !in victims && forall v | v in victims :: Stored(docs, v)
    ensures !Evicted(victims, d.queue, d.id)
  {
    forall i | 0 <= i < |victims| ensures !(victims[i].queue == d.queue && victims[i].id == d.id) {
      assert victims[i] in victims;
    }
  }

  // ---------- recovery ----------

  /** Every live document of the scanned range is either in the batch or beyond its last document. */
  lemma ScanCoversDoc(s: Sys, keys: Keys, scanAt: nat, batch: seq<Doc>, s': Sys, end: int, d: Doc)
    requires ShelfInv(s.shelf) && KeysInv(keys) && scanAt <= end && ScanStep(s, keys, scanAt, batch, s')
    requires Stored(s.shelf.docs, d) && Live(d, end) && !keys.scanned.Finished?
    requires s.Cached(d) || Ahead(keys, d)
    ensures Covers(s', d)
  {
    if d in batch {
      var i :| 0 <= i < |batch| && batch[i] == d;
      PartHolds(Recalled(batch), i);
    } else if !s.Cached(d) {
      assert Selected(d, ScanFilter(keys), scanAt);
      var last := batch[|batch| - 1];
      assert last in batch && Stored(s.shelf.docs, last);
      assert Leq(ByIdAscending, last, d);
      assert KeyOf(last) != KeyOf(d);
    }
  }

  lemma ScanKeeps(s: Sys, keys: Keys, scanAt: nat, batch: seq<Doc>, s': Sys, end: int)
    requires ShelfInv(s.shelf) && KeysInv(keys) && KeysBelow(s.(keys := keys)) && scanAt <= end
    requires !keys.scanned.Finished? && keys.running
    requires forall d | Stored(s.shelf.docs, d) && Live(d, end) :: s.Cached(d) || Ahead(keys, d)
    requires ScanStep(s, keys, scanAt, batch, s')
    ensures Inv(s', end)
  {
    forall d | Stored(s'.shelf.docs, d) && Live(d, end) ensures Covers(s', d) {
      ScanCoversDoc(s, keys, scanAt, batch, s', end, d);
    }
    if batch != [] {
      AnswerBelow(s.shelf, batch, |batch| - 1);
    }
  }

  /** Starting the scan: the target is the last live document, so every live document is ahead. */
  lemma StartKeeps(s: Sys, now: nat, last: seq<Doc>, end: int, d: Doc)
    requires Inv(s, end) && MustStart(s.keys) && now <= end
    requires Answers(s.shelf.docs, now, ANY, ByIdDescending, 1, last)
    requires Stored(s.shelf.docs, d) && Live(d, end)
    ensures last != [] && Ahead(Started(s.keys, last), d)
  {
    assert Selected(d, ANY, now);
    if d !in last {
      assert last[0] in last;
      assert Leq(ByIdDescending, last[0], d);
    }
  }

  lemma RecoverKeeps(s: Sys, now: nat, scanAt: nat, last: seq<Doc>, batch: seq<Doc>, s': Sys, end: int)
    requires Inv(s, end) && now <= end && scanAt <= end && RecoverStep(s, now, scanAt, last, batch, s')
    ensures Inv(s', end)
  {
    hide ScanStep;
    if s.keys.scanned.Finished? {
    } else if MustStart(s.keys) {
      forall d | Stored(s.shelf.docs, d) && Live(d, end) ensures last != [] && Ahead(Started(s.keys, last), d) {
        StartKeeps(s, now, last, end, d);
      }
      if last != [] {
        AnswerBelow(s.shelf, last, 0);
        ScanKeeps(s, Started(s.keys, last), scanAt, batch, s', end);
      }
    } else {
      forall d | Stored(s.shelf.docs, d) && Live(d, end)
        ensures s.Cached(d) || Ahead(s.keys, d) { assert Covers(s, d); }
      ScanKeeps(s, s.keys, scanAt, batch, s', end);
    }
  }

  // ---------- runs ----------

  /** The guard of an Add: what must hold of the batch before the call. */
  ghost predicate Safe(s: Sys, action: Action, now: nat) {
    action.Add? ==>
      if AllAddable(action.items) then SafeAdd(s, ToMessages(action.items, now), now)
      else SafeFailure(s, ToMessages(action.items[..Accepted(action.items)], now), now)
  }

  lemma AddableAreValid(items: seq<AddItem>, now: nat)
    requires AllAddable(items)
    ensures AllValid(ToMessages(items, now))
  {
  }

  lemma AddStepIff(s: Sys, items: seq<AddItem>, now: nat, s': Sys)
    requires Inv(s, now) && Next(s, Action.Add(items), now, s')
    ensures Inv(s', now) <==> Safe(s, Action.Add(items), now)
    ensures ShelfInv(s'.shelf) && KeysInv(s'.keys) && KeysBelow(s')
  {
    var taken := if AllAddable(items) then items else items[..Accepted(items)];
    var messages := ToMessages(taken, now);
    AddableAreValid(taken, now);
    hide AllAddable;
    PutKeepsInv(s.shelf, messages);
    PutCounts(s.shelf, messages);
    hide Inv;
    hide SafeAdd;
    hide SafeFailure;
    if AllAddable(items) {
      AddLosesNothingIff(s, messages, s', now);
    } else {
      FailedAddLosesNothingIff(s, messages, s', now);
    }
  }

  function LastReading(action: Action, now: nat): nat {
    if action.Recover? && now < action.scanAt then action.scanAt else now
  }

  lemma NextKeeps(s: Sys, action: Action, now: nat, s': Sys)
    requires Inv(s, now) && Safe(s, action, now) && Next(s, action, now, s')
    ensures Inv(s', LastReading(action, now))
  {
    var end := LastReading(action, now);
    LaterInv(s, now, end);
    match action
    case Add(items) => AddStepIff(s, items, now, s');
    case Pull(queue, op, retryAt) =>
      var ids :| ReconcileStep(s, queue, op, ids, now, retryAt, s');
      PullKeeps(s, queue, op, ids, now, retryAt, s', end);
    case Settle(kind, queue, id, r) => AckKeeps(s, kind, queue, id, ReplyScore(kind, r, now), r.lockMs, now, s', end);
    case SettleAndRemove(kind, queue, id, r) =>
      var settled :| SettleAndRemoveStep(s, kind, queue, id, r, now, settled, s');
      AckKeeps(s, kind, queue, id, ReplyScore(kind, r, now), r.lockMs, now, settled, end);
      if queue != "" && id != "" { RemoveKeeps(settled, queue, [id], s', end); }
    case Remove(queue, ids) => RemoveKeeps(s, queue, ids, s', end);
    case Housekeep(op) => SweepKeeps(s, op, s', end);
    case RemoveExpired =>
      var victims :| ExpiredStep(s, now, victims, s');
      if !s.keys.running { EvictKeeps(s, victims, s', end); }
    case RemoveExceeding(queue, maxElements) =>
      var victims :| ExceedingStep(s, queue, maxElements, now, victims, s');
      if s' != s { EvictKeeps(s, victims, s', end); }
    case Recover(scanAt) =>
      var last, batch :| RecoverStep(s, now, scanAt, last, batch, s');
      RecoverKeeps(s, now, scanAt, last, batch, s', end);
    case WipeCache =>
    case FlushAll =>
  }

  /** A run: actions with the clock reading each starts at, and the states in between. */
  datatype Run = Run(states: seq<Sys>, actions: seq<Action>, times: seq<nat>) {
    ghost predicate Valid() {
      && |states| == |actions| + 1 && |times| == |actions|
      && states[0] == EMPTY
      && (forall i | 0 <= i < |actions| :: Next(states[i], actions[i], times[i], states[i + 1]))
      && (forall i | 0 < i < |actions| :: LastReading(actions[i - 1], times[i - 1]) <= times[i])
    }

    /** The last clock reading before state `i`. */
    function Clock(i: nat): nat
      requires i <= |actions| == |times|
    {
      if i == 0 then 0 else LastReading(actions[i - 1], times[i - 1])
    }
  }

  ghost predicate SafeAt(run: Run, j: nat)
    requires run.Valid() && j < |run.actions|
  {
    Safe(run.states[j], run.actions[j], run.times[j])
  }

  lemma NothingToLose()
    ensures Inv(EMPTY, 0)
  {
  }

  lemma StepOf(run: Run, j: nat)
    requires run.Valid() && j < |run.actions|
    ensures |run.states| == |run.actions| + 1 && |run.times| == |run.actions|
    ensures Next(run.states[j], run.actions[j], run.times[j], run.states[j + 1])
    ensures run.Clock(j) <= run.times[j] && run.Clock(j + 1) == LastReading(run.actions[j], run.times[j])
  {
  }

  lemma StepKeeps(run: Run, j: nat)
    requires run.Valid() && j < |run.actions| && Inv(run.states[j], run.Clock(j)) && SafeAt(run, j)
    ensures Inv(run.states[j + 1], run.Clock(j + 1))
  {
    StepOf(run, j);
    hide Run.Valid;
    hide Next;
    hide Inv;
    hide Safe;
    LaterInv(run.states[j], run.Clock(j), run.times[j]);
    NextKeeps(run.states[j], run.actions[j], run.times[j], run.states[j + 1]);
  }

  lemma {:induction false} RunKeeps(run: Run, i: nat)
    requires run.Valid() && i <= |run.actions| && forall j | 0 <= j < i :: SafeAt(run, j)
    ensures Inv(run.states[i], run.Clock(i))
  {
    hide Next;
    hide Inv;
    hide Safe;
    assert run.states[0] == EMPTY && run.Clock(0) == 0;
    assert |run.states| == |run.actions| + 1;
    hide *;
    if i == 0 {
      NothingToLose();
    } else {
      RunKeeps(run, i - 1);
      assert SafeAt(run, i - 1);
      StepKeeps(run, i - 1);
    }
  }

  ghost predicate CoveredAt(run: Run, i: nat)
    requires run.Valid() && i <= |run.actions|
  {
    Covered(run.states[i], run.Clock(i))
  }

  lemma SafeHere(run: Run, j: nat)
    requires run.Valid() && j < |run.actions|
    requires Inv(run.states[j], run.Clock(j)) && CoveredAt(run, j + 1)
    ensures SafeAt(run, j) && Inv(run.states[j + 1], run.Clock(j + 1))
  {
    StepOf(run, j);
    hide Run.Valid;
    hide Next;
    hide Inv;
    hide Safe;
    LaterInv(run.states[j], run.Clock(j), run.times[j]);
    CoveredStepIsSafe(run.states[j], run.actions[j], run.times[j], run.states[j + 1]);
    NextKeeps(run.states[j], run.actions[j], run.times[j], run.states[j + 1]);
  }

  lemma {:induction false} CoveredRunKeeps(run: Run, i: nat)
    requires run.Valid() && i <= |run.actions| && forall j | 0 <= j <= i :: CoveredAt(run, j)
    ensures Inv(run.states[i], run.Clock(i))
  {
    hide Next;
    hide Inv;
    hide Covered;
    assert run.states[0] == EMPTY && run.Clock(0) == 0;
    assert |run.states| == |run.actions| + 1;
    hide *;
    if i == 0 {
      NothingToLose();
    } else {
      CoveredRunKeeps(run, i - 1);
      assert CoveredAt(run, i);
      SafeHere(run, i - 1);
    }
  }

  lemma CoveredStepIsSafe(s: Sys, action: Action, now: nat, s': Sys)
    requires Inv(s, now) && Next(s, action, now, s') && Covered(s', LastReading(action, now))
    ensures Safe(s, action, now)
  {
    if action.Add? {
      AddStepIff(s, action.items, now, s');
    }
  }

  /** The main theorem: a run keeps every stored live message within reach exactly when all its Adds
      are safe. No pull, ack, removal, eviction, wipe or recovery leaves a stored one out of reach;
      which of them take one out of storage is told in `Departures`. */
  lemma NoLossIff(run: Run)
    requires run.Valid()
    ensures (forall i | 0 <= i <= |run.actions| :: CoveredAt(run, i))
            <==> (forall j | 0 <= j < |run.actions| :: SafeAt(run, j))
  {
    if forall i | 0 <= i <= |run.actions| :: CoveredAt(run, i) {
      forall j | 0 <= j < |run.actions| ensures SafeAt(run, j) {
        CoveredRunKeeps(run, j);
        assert CoveredAt(run, j + 1);
        SafeHere(run, j);
      }
    }
    if forall j | 0 <= j < |run.actions| :: SafeAt(run, j) {
      forall i | 0 <= i <= |run.actions| ensures CoveredAt(run, i) { RunKeeps(run, i); }
    }
  }

  // ---------- ids without ':' ----------

  ghost predicate IdsInv(docs: Docs) {
    forall k | k in docs :: ColonFree(docs[k].id)
  }

  /** The messages of an Add have queues, and ids without ':'. */
  predicate Plain(action: Action) {
    action.Add? ==> forall i | 0 <= i < |action.items| :: Addable(action.items[i]) && ColonFree(action.items[i].id)
  }

  lemma {:induction false} PutKeepsColonFree(s: Shelf, messages: seq<NewMessage>)
    requires IdsInv(s.docs) && forall i | 0 <= i < |messages| :: ColonFree(messages[i].id)
    ensures IdsInv(Put(s, messages).docs)
  {
    if messages == [] {
    } else {
      PutKeepsColonFree(s, messages[..|messages| - 1]);
    }
  }

  lemma EvictKeepsIds(s: Sys, victims: seq<Doc>, s': Sys)
    requires IdsInv(s.shelf.docs) && EvictStep(s, victims, s')
    ensures IdsInv(s'.shelf.docs)
  {
    forall k | k in s'.shelf.docs ensures ColonFree(s'.shelf.docs[k].id) {
      assert Stored(s'.shelf.docs, s'.shelf.docs[k]);
    }
  }

  lemma NextKeepsIds(s: Sys, action: Action, now: nat, s': Sys)
    requires IdsInv(s.shelf.docs) && Plain(action) && Next(s, action, now, s')
    ensures IdsInv(s'.shelf.docs)
  {
    match action
    case Add(items) => PutKeepsColonFree(s.shelf, ToMessages(items, now));
    case RemoveExpired =>
      var victims :| ExpiredStep(s, now, victims, s');
      if !s.keys.running { EvictKeepsIds(s, victims, s'); }
    case RemoveExceeding(queue, maxElements) =>
      var victims :| ExceedingStep(s, queue, maxElements, now, victims, s');
      if s' != s { EvictKeepsIds(s, victims, s'); }
    case _ =>
  }

  lemma {:induction false} RunKeepsIds(run: Run, i: nat)
    requires run.Valid() && i <= |run.actions| && forall j | 0 <= j < |run.actions| :: Plain(run.actions[j])
    ensures IdsInv(run.states[i].shelf.docs)
  {
    hide Next;
    hide Plain;
    if i == 0 {
    } else {
      StepOf(run, i - 1);
      RunKeepsIds(run, i - 1);
      NextKeepsIds(run.states[i - 1], run.actions[i - 1], run.times[i - 1], run.states[i]);
    }
  }

  lemma PlainAddIsSafe(s: Sys, messages: seq<NewMessage>, now: int)
    requires ShelfInv(s.shelf) && IdsInv(s.shelf.docs)
    requires forall i | 0 <= i < |messages| :: ColonFree(messages[i].id)
    ensures SafeAdd(s, messages, now)
  {
    var docs := s.shelf.docs;
    forall i | 0 <= i < |messages| && messages[i].Key() in docs
      ensures NamedIn(messages, docs[messages[i].Key()].queue, docs[messages[i].Key()].id)
    {
      var k := messages[i].Key();
      ColonFreeKeysInjective(docs[k].queue, docs[k].id, messages[i].queue, messages[i].id);
    }
  }

  lemma PlainActionIsSafe(s: Sys, action: Action, now: nat)
    requires ShelfInv(s.shelf) && IdsInv(s.shelf.docs) && Plain(action)
    ensures Safe(s, action, now)
  {
    if action.Add? {
      PlainAddIsSafe(s, ToMessages(action.items, now), now);
    }
  }

  lemma {:induction false} PlainRunIsSafe(run: Run, i: nat)
    requires run.Valid() && i <= |run.actions| && forall j | 0 <= j < |run.actions| :: Plain(run.actions[j])
    ensures forall j | 0 <= j < i :: SafeAt(run, j)
  {
    hide Next;
    hide Safe;
    hide IdsInv;
    hide Covered;
    hide Plain;
    if i == 0 {
    } else {
      PlainRunIsSafe(run, i - 1);
      RunKeeps(run, i - 1);
      RunKeepsIds(run, i - 1);
      PlainActionIsSafe(run.states[i - 1], run.actions[i - 1], run.times[i - 1]);
    }
  }

  /** In every state of every run whose added ids have no ':', a stored message that has not
      expired is in a pool of its queue, or the recovery scan has yet to reach it. */
  lemma NoLiveMessageLost(run: Run, i: nat, d: Doc)
    requires run.Valid() && i <= |run.actions| && forall j | 0 <= j < |run.actions| :: Plain(run.actions[j])
    requires Stored(run.states[i].shelf.docs, d) && Live(d, run.Clock(i))
    ensures run.states[i].Cached(d) || Ahead(run.states[i].keys, d)
  {
    PlainRunIsSafe(run, i);
    RunKeeps(run, i);
    assert Covers(run.states[i], d);
  }
}
