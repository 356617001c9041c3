/** Every active score stays within [MIN, MAX] over whole runs, including after recovery reads
    back a stored undefined score. */
module ScoreRuns {
  import opened Score
  import opened Pools
  import opened StorageModel
  import opened RecoveryKeys
  import opened Clock
  import opened System
  import NoLoss

  predicate LocInRange(loc: Loc) {
    match loc
    case Active(score) => InBounds(score)
    case Processing(_) => true
    case Locked(_, _, score) => Storable(score)
  }

  ghost predicate TableInRange(t: Table) {
    forall id | id in t :: LocInRange(t[id])
  }

  /** The scores an operation brings in. */
  ghost predicate OpInRange(op: Op) {
    match op
    case Insert(messages) => forall id | id in Latest(messages) :: InBounds(Latest(messages)[id])
    case MakeAvailable(_, score) => InBounds(score)
    case Lock(_, _, _, score) => Storable(score)
    case Unlock(_, _, fallback) => InBounds(fallback)
    case _ => true
  }

  lemma StepInRange(t: Table, op: Op, ids: seq<string>, t': Table)
    requires TableInRange(t) && OpInRange(op) && Step(t, op, ids, t')
    ensures TableInRange(t')
  {
    forall id | id in t' ensures LocInRange(t'[id]) {
      assert id in t ==> LocInRange(t[id]);
      assert op.Unlock? && id in ids ==> DueToUnlock(t, op.kind, op.now, id);
    }
  }

  /** The acks a caller may send: an explicit score must be in range (or undefined, when
      locking), and without one the lock time must not be negative. */
  predicate AckFits(requested: real, lockMs: int) {
    if requested != 0.0 then InBounds(requested) || (lockMs > 0 && requested == UNDEFINED)
    else lockMs >= 0
  }

  /** An ack or nack of a processing message keeps the pools in range exactly when it fits. */
  lemma AckInRangeIff(t: Table, kind: LockKind, id: string, r: Reply, score: real, now: nat, ids: seq<string>,
                      t': Table)
    requires TableInRange(t) && id in t && t[id].Processing? && (Ms(now) as real) <= MAX
    requires score == ReplyScore(kind, r, now)
    requires Step(t, AckOp(kind, id, score, r.lockMs, now), ids, t')
    ensures TableInRange(t') <==> AckFits(r.requested, r.lockMs)
  {
    var op := AckOp(kind, id, score, r.lockMs, now);
    assert OpInRange(op) <==> AckFits(r.requested, r.lockMs);
    if OpInRange(op) {
      StepInRange(t, op, ids, t');
    } else {
      assert !LocInRange(t'[id]);
    }
  }

  // ---------- runs ----------

  ghost predicate Inv(s: Sys) {
    && (forall queue :: TableInRange(s.Pool(queue)))
    && (forall k | k in s.shelf.docs :: Storable(s.shelf.docs[k].score))
  }

  /** The clock and the requests a run may contain. */
  predicate Sensible(action: Action, now: nat) {
    && (Ms(now) as real) <= MAX
    && (action.Settle? || action.SettleAndRemove? ==> AckFits(action.reply.requested, action.reply.lockMs))
    && (action.Housekeep? && action.op.Unlock? ==> InBounds(action.op.fallback))
  }

  lemma {:induction false} PartInRange(messages: seq<QueuedMsg>, queue: string)
    requires forall i | 0 <= i < |messages| :: InBounds(messages[i].score)
    ensures forall m | m in Part(messages, queue) :: InBounds(m.score)
  {
    if messages == [] {
    } else {
      PartInRange(messages[..|messages| - 1], queue);
    }
  }

  lemma {:induction false} PutInRange(s: Shelf, messages: seq<NewMessage>)
    requires forall k | k in s.docs :: Storable(s.docs[k].score)
    requires forall i | 0 <= i < |messages| :: InBounds(messages[i].score)
    ensures forall k | k in Put(s, messages).docs :: Storable(Put(s, messages).docs[k].score)
  {
    if messages == [] {
    } else {
      PutInRange(s, messages[..|messages| - 1]);
    }
  }

  lemma FilledInRange(t: Table, messages: seq<Msg>, t': Table)
    requires TableInRange(t) && Fills(t, messages, t') && forall m | m in messages :: InBounds(m.score)
    ensures TableInRange(t')
  {
  }

  lemma NextKeeps(s: Sys, action: Action, now: nat, s': Sys)
    requires Inv(s) && Sensible(action, now) && Next(s, action, now, s')
    ensures Inv(s')
  {
    match action
    case Add(items) =>
      if AllAddable(items) {
        AddKeeps(s, ToMessages(items, now), s');
      } else {
        PutInRange(s.shelf, ToMessages(items[..Accepted(items)], now));
        forall queue ensures TableInRange(s'.Pool(queue)) { assert TableInRange(s.Pool(queue)); }
      }
    case Pull(queue, op, retryAt) =>
      var ids :| ReconcileStep(s, queue, op, ids, now, retryAt, s');
      PullKeeps(s, queue, op, ids, now, retryAt, s');
    case Settle(kind, queue, id, r) => AckKeeps(s, kind, queue, id, ReplyScore(kind, r, now), r, now, s');
    case SettleAndRemove(kind, queue, id, r) =>
      var settled :| SettleAndRemoveStep(s, kind, queue, id, r, now, settled, s');
      AckKeeps(s, kind, queue, id, ReplyScore(kind, r, now), r, now, settled);
      if queue != "" && id != "" { RemoveKeeps(settled, queue, [id], s'); }
    case Remove(queue, ids) => RemoveKeeps(s, queue, ids, s');
    case Housekeep(op) =>
      forall queue ensures TableInRange(s'.Pool(queue)) {
        assert Sweeps(s, op, queue, s') && TableInRange(s.Pool(queue));
        var ids :| Step(s.Pool(queue), op, ids, s'.Pool(queue));
        StepInRange(s.Pool(queue), op, ids, s'.Pool(queue));
      }
    case RemoveExpired =>
      var victims :| ExpiredStep(s, now, victims, s');
      if !s.keys.running { EvictKeeps(s, victims, s'); }
    case RemoveExceeding(queue, maxElements) =>
      var victims :| ExceedingStep(s, queue, maxElements, now, victims, s');
      if s' != s { EvictKeeps(s, victims, s'); }
    case Recover(scanAt) =>
      var last, batch :| RecoverStep(s, now, scanAt, last, batch, s');
      RecoverKeeps(s, now, scanAt, last, batch, s');
    case WipeCache =>
    case FlushAll =>
  }

  lemma RemoveKeeps(s: Sys, queue: string, ids: seq<string>, s': Sys)
    requires Inv(s) && RemoveStep(s, queue, ids, s')
    ensures Inv(s')
  {
    assert TableInRange(s.Pool(queue));
    StepInRange(s.Pool(queue), Pools.Remove(ids), [], s'.Pool(queue));
    Elsewhere(s, s', queue);
  }

  lemma Elsewhere(s: Sys, s': Sys, queue: string)
    requires Inv(s) && SameElsewhere(s, s', queue) && TableInRange(s'.Pool(queue))
    ensures forall q :: TableInRange(s'.Pool(q))
  {
    forall q ensures TableInRange(s'.Pool(q)) { assert TableInRange(s.Pool(q)); }
  }

  lemma AddKeeps(s: Sys, messages: seq<NewMessage>, s': Sys)
    requires Inv(s) && AddStep(s, messages, s')
    requires forall i | 0 <= i < |messages| :: InBounds(messages[i].score)
    ensures Inv(s')
  {
    PutInRange(s.shelf, messages);
    forall queue ensures TableInRange(s'.Pool(queue)) {
      assert TableInRange(s.Pool(queue));
      PartInRange(Queued(messages), queue);
      FilledInRange(s.Pool(queue), Part(Queued(messages), queue), s'.Pool(queue));
    }
  }

  lemma PullKeeps(s: Sys, queue: string, op: Op, ids: seq<string>, now: nat, retryAt: nat, s': Sys)
    requires Inv(s) && op.Pull? && ReconcileStep(s, queue, op, ids, now, retryAt, s')
    ensures Inv(s')
  {
    var taken :| Step(s.Pool(queue), op, ids, taken)
                 && s'.Pool(queue) == taken - Purged(s.shelf.docs, queue, ids, now, retryAt);
    StepInRange(s.Pool(queue), op, ids, taken);
    Elsewhere(s, s', queue);
  }

  lemma AckKeeps(s: Sys, kind: LockKind, queue: string, id: string, score: real, r: Reply, now: nat, s': Sys)
    requires Inv(s) && (Ms(now) as real) <= MAX && AckFits(r.requested, r.lockMs)
    requires score == ReplyScore(kind, r, now)
    requires AckStep(s, kind, queue, id, score, r.lockMs, now, s')
    ensures Inv(s')
  {
    if queue != "" && id != "" {
      var op := AckOp(kind, id, score, r.lockMs, now);
      var ids :| Operates(s, queue, op, ids, s');
      StepInRange(s.Pool(queue), op, ids, s'.Pool(queue));
      Elsewhere(s, s', queue);
    }
  }

  lemma EvictKeeps(s: Sys, victims: seq<Doc>, s': Sys)
    requires Inv(s) && EvictStep(s, victims, s')
    ensures Inv(s')
  {
    forall k | k in s'.shelf.docs ensures Storable(s'.shelf.docs[k].score) {
      assert Stored(s'.shelf.docs, s'.shelf.docs[k]);
    }
    forall queue ensures TableInRange(s'.Pool(queue)) { assert TableInRange(s.Pool(queue)); }
  }

  lemma ScanKeeps(s: Sys, keys: Keys, scanAt: nat, batch: seq<Doc>, s': Sys)
    requires Inv(s) && ScanStep(s, keys, scanAt, batch, s')
    ensures Inv(s')
  {
    forall queue ensures TableInRange(s'.Pool(queue)) {
      assert TableInRange(s.Pool(queue));
      PartInRange(Recalled(batch), queue);
      FilledInRange(s.Pool(queue), Part(Recalled(batch), queue), s'.Pool(queue));
    }
  }

  lemma RecoverKeeps(s: Sys, now: nat, scanAt: nat, last: seq<Doc>, batch: seq<Doc>, s': Sys)
    requires Inv(s) && RecoverStep(s, now, scanAt, last, batch, s')
    ensures Inv(s')
  {
    hide ScanStep;
    if !s.keys.scanned.Finished? {
      if MustStart(s.keys) {
        if last != [] {
          ScanKeeps(s, Started(s.keys, last), scanAt, batch, s');
        } else {
          forall queue ensures TableInRange(s'.Pool(queue)) { assert TableInRange(s.Pool(queue)); }
        }
      } else {
        ScanKeeps(s, s.keys, scanAt, batch, s');
      }
    }
  }

  lemma {:induction false} RunKeeps(run: NoLoss.Run, i: nat)
    requires run.Valid() && i <= |run.actions|
    requires forall j | 0 <= j < |run.actions| :: Sensible(run.actions[j], run.times[j])
    ensures Inv(run.states[i])
  {
    if i == 0 {
    } else {
      hide Next;
      RunKeeps(run, i - 1);
      NextKeeps(run.states[i - 1], run.actions[i - 1], run.times[i - 1], run.states[i]);
    }
  }

  /** The main theorem: in every state of every run of sensible requests, active scores are in range. */
  lemma ActiveScoresStayInRange(run: NoLoss.Run, i: nat, queue: string, id: string)
    requires run.Valid() && i <= |run.actions|
    requires forall j | 0 <= j < |run.actions| :: Sensible(run.actions[j], run.times[j])
    requires id in run.states[i].Pool(queue) && run.states[i].Pool(queue)[id].Active?
    ensures InBounds(run.states[i].Pool(queue)[id].score)
  {
    RunKeeps(run, i);
    assert TableInRange(run.states[i].Pool(queue));
    assert LocInRange(run.states[i].Pool(queue)[id]);
  }
}
