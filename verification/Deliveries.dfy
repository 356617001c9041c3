/** Exclusive delivery, deadlines and locks over runs of the whole server: what the theorems about
    one queue's cache operations say of service calls and housekeeping. */
module Deliveries {
  import opened Score
  import opened Pools
  import PoolRuns
  import opened StorageModel
  import opened Clock
  import opened System
  import RecoveryKeys
  import opened NoLoss

  ghost predicate IsActive(s: Sys, queue: string, id: string) {
    id in s.Pool(queue) && s.Pool(queue)[id].Active?
  }

  ghost predicate IsAt(s: Sys, queue: string, id: string, loc: Loc) {
    id in s.Pool(queue) && s.Pool(queue)[id] == loc
  }

  ghost predicate IsLocked(s: Sys, queue: string, id: string) {
    id in s.Pool(queue) && s.Pool(queue)[id].Locked?
  }

  ghost predicate IsAbsent(s: Sys, queue: string, id: string) {
    id !in s.Pool(queue)
  }

  predicate Names(items: seq<AddItem>, queue: string, id: string) {
    exists i | 0 <= i < |items| :: items[i].queue == queue && items[i].id == id
  }

  ghost predicate IsProcessing(s: Sys, queue: string, id: string) {
    id in s.Pool(queue) && s.Pool(queue)[id].Processing?
  }

  /** Storage holds a live document of this name. */
  ghost predicate HasLive(s: Sys, queue: string, id: string, at: int) {
    exists d :: Stored(s.shelf.docs, d) && d.queue == queue && d.id == id && Live(d, at)
  }

  /** Storage holds a document of this name whose expiry has passed. */
  ghost predicate HasPast(s: Sys, queue: string, id: string, date: int) {
    exists d :: Stored(s.shelf.docs, d) && d.queue == queue && d.id == id && d.expiry <= date
  }

  /** What can make an id active: an ack or nack of a processing message without a lock, a timeout
      or unlock that is due, or an insertion of an id the cache does not hold. */
  ghost predicate Activates(s: Sys, action: Action, queue: string, id: string) {
    match action
    case Settle(_, q, i, reply) => q == queue && i == id && reply.lockMs <= 0 && IsProcessing(s, queue, id)
    case Housekeep(op) => (op.Timeout? || op.Unlock?) && PoolRuns.IsDue(s.Pool(queue), op, id)
    case Add(items) => IsAbsent(s, queue, id) && Names(items, queue, id)
    case Recover(scanAt) => IsAbsent(s, queue, id) && HasLive(s, queue, id, scanAt)
    case _ => false
  }

  /** What can take an id out of the cache: a pull that takes it while storage has no live document
      of its name, a removal of it, an eviction of its document, or the loss of the cache. */
  ghost predicate Drops(s: Sys, action: Action, now: nat, queue: string, id: string) {
    match action
    case Pull(q, _, retryAt) =>
      q == queue && IsActive(s, queue, id) && !Found(s.shelf.docs, queue, id, now, retryAt)
    case Remove(q, ids) => q == queue && id in ids
    case SettleAndRemove(_, q, i, _) => q == queue && i == id && q != "" && i != ""
    case RemoveExpired => !s.keys.running && HasPast(s, queue, id, now)
    case RemoveExceeding(q, _) => !s.keys.running && q == queue && HasLive(s, queue, id, now)
    case WipeCache => true
    case FlushAll => true
    case _ => false
  }

  /** The lock an ack or nack takes. */
  function LockOf(action: Action, now: nat): Loc
    requires action.Settle?
  {
    Locked(action.kind, (Ms(now) + action.reply.lockMs) as real, ReplyScore(action.kind, action.reply, now))
  }

  /** How an action can change the place of an id. */
  ghost predicate Explained(s: Sys, action: Action, now: nat, s': Sys, queue: string, id: string) {
    && (IsActive(s', queue, id) && !IsActive(s, queue, id) ==> Activates(s, action, queue, id))
    && (id in s'.Pool(queue) && s'.Pool(queue)[id].Processing? && !IsAt(s, queue, id, s'.Pool(queue)[id]) ==>
          action.Pull? && action.queue == queue && action.op.Pull? && IsActive(s, queue, id)
          && s'.Pool(queue)[id] == Processing(action.op.deadline))
    && (IsLocked(s', queue, id) && !IsAt(s, queue, id, s'.Pool(queue)[id]) ==>
          action.Settle? && action.queue == queue && action.id == id && action.reply.lockMs > 0
          && s'.Pool(queue)[id] == LockOf(action, now))
    && (IsAbsent(s', queue, id) && !IsAbsent(s, queue, id) ==> Drops(s, action, now, queue, id))
  }

  lemma FillsExplains(t: Table, messages: seq<Msg>, t': Table, id: string)
    requires Fills(t, messages, t')
    ensures id in t ==> id in t' && t'[id] == t[id]
    ensures id in t' && id !in t ==> t'[id].Active? && id in Latest(messages)
  {
  }

  lemma AddExplained(s: Sys, items: seq<AddItem>, now: nat, s': Sys, queue: string, id: string)
    requires Next(s, Action.Add(items), now, s')
    ensures Explained(s, Action.Add(items), now, s', queue, id)
  {
    if AllAddable(items) {
      var messages := ToMessages(items, now);
      FillsExplains(s.Pool(queue), Part(Queued(messages), queue), s'.Pool(queue), id);
      if id in Latest(Part(Queued(messages), queue)) {
        var i := PartComesFrom(Queued(messages), queue, id);
        assert items[i].queue == queue && items[i].id == id;
      }
    }
  }

  lemma PullExplained(s: Sys, queue: string, op: Op, retryAt: nat, now: nat, s': Sys, q: string, id: string)
    requires Next(s, Action.Pull(queue, op, retryAt), now, s')
    ensures Explained(s, Action.Pull(queue, op, retryAt), now, s', q, id)
  {
    hide Exhausts;
    hide LowestFirst;
    var ids :| ReconcileStep(s, queue, op, ids, now, retryAt, s');
    var taken :| Step(s.Pool(queue), op, ids, taken)
                 && s'.Pool(queue) == taken - Purged(s.shelf.docs, queue, ids, now, retryAt);
    PoolRuns.HowLocationsArise(s.Pool(queue), op, ids, taken, id);
    assert id in Purged(s.shelf.docs, queue, ids, now, retryAt) ==>
        id in ids && !Found(s.shelf.docs, queue, id, now, retryAt);
    hide Purged;
    hide Found;
    assert id in ids ==> IsActive(s, queue, id);
    assert id !in ids && id in s.Pool(queue) ==> taken[id] == s.Pool(queue)[id];
    hide Step;
  }

  lemma SettleExplained(s: Sys, kind: LockKind, queue: string, id: string, r: Reply, now: nat, s': Sys, q: string,
                        x: string)
    requires AckStep(s, kind, queue, id, ReplyScore(kind, r, now), r.lockMs, now, s')
    ensures Explained(s, Action.Settle(kind, queue, id, r), now, s', q, x)
    ensures x in s'.Pool(q) <==> x in s.Pool(q)
    ensures x in s.Pool(q) && !(q == queue && x == id) ==> s'.Pool(q)[x] == s.Pool(q)[x]
  {
    if queue != "" && id != "" {
      var op := AckOp(kind, id, ReplyScore(kind, r, now), r.lockMs, now);
      var ids :| Operates(s, queue, op, ids, s');
    }
  }

  lemma SettleAndRemoveExplained(s: Sys, kind: LockKind, queue: string, id: string, r: Reply, now: nat, s': Sys,
                                 q: string, x: string)
    requires Next(s, Action.SettleAndRemove(kind, queue, id, r), now, s')
    ensures Explained(s, Action.SettleAndRemove(kind, queue, id, r), now, s', q, x)
  {
    var settled :| SettleAndRemoveStep(s, kind, queue, id, r, now, settled, s');
    SettleExplained(s, kind, queue, id, r, now, settled, q, x);
    hide AckStep;
    if queue == "" || id == "" {
      NamelessSettles(s, kind, queue, id, r, now, settled);
    } else {
      assert settled.Pool(q) - SetOf([id]) == settled.Pool(q) - {id};
    }
  }

  lemma NamelessSettles(s: Sys, kind: LockKind, queue: string, id: string, r: Reply, now: nat, s': Sys)
    requires (queue == "" || id == "") && AckStep(s, kind, queue, id, ReplyScore(kind, r, now), r.lockMs, now, s')
    ensures s' == s
  {
  }

  /** What a timeout or unlock does to one id. */
  lemma SweptPlace(t: Table, op: Op, ids: seq<string>, t': Table, id: string)
    requires (op.Timeout? || op.Unlock?) && Step(t, op, ids, t')
    ensures id in t' <==> id in t
    ensures id in t && id !in ids ==> t'[id] == t[id]
    ensures id in ids ==> PoolRuns.IsDue(t, op, id) && t'[id] == Active(if op.Timeout? then MIN
                                                                        else Resolve(t[id].score, op.fallback))
  {
    if id in ids {
      assert PoolRuns.IsDue(t, op, id);
    }
  }

  lemma SweepExplained(s: Sys, op: Op, now: nat, s': Sys, queue: string, id: string)
    requires Next(s, Action.Housekeep(op), now, s')
    ensures Explained(s, Action.Housekeep(op), now, s', queue, id)
    ensures op.Timeout? && IsActive(s', queue, id) && !IsActive(s, queue, id) ==>
              PoolRuns.IsDue(s.Pool(queue), op, id) && IsAt(s', queue, id, Active(MIN))
    ensures op.Unlock? && IsActive(s', queue, id) && !IsActive(s, queue, id) ==>
              PoolRuns.IsDue(s.Pool(queue), op, id)
              && IsAt(s', queue, id, Active(Resolve(s.Pool(queue)[id].score, op.fallback)))
  {
    assert (op.Timeout? || op.Unlock?) && Sweeps(s, op, queue, s');
    hide Next;
    hide Step;
    var ids :| Step(s.Pool(queue), op, ids, s'.Pool(queue));
    SweptPlace(s.Pool(queue), op, ids, s'.Pool(queue), id);
  }

  lemma EvictExplained(s: Sys, victims: seq<Doc>, s': Sys, queue: string, id: string) returns (v: Doc)
    requires EvictStep(s, victims, s')
    ensures id in s'.Pool(queue) ==> IsAt(s, queue, id, s'.Pool(queue)[id])
    ensures IsAbsent(s', queue, id) && !IsAbsent(s, queue, id) ==> v in victims && v.queue == queue && v.id == id
  {
    v := Doc(queue, id, 0, 0.0, 0, false, 0, "");
    if IsAbsent(s', queue, id) && !IsAbsent(s, queue, id) {
      var i :| 0 <= i < |victims| && victims[i].queue == queue && victims[i].id == id;
      v := victims[i];
    }
  }

  lemma ExpiredExplained(s: Sys, now: nat, s': Sys, queue: string, id: string)
    requires Next(s, Action.RemoveExpired, now, s')
    ensures Explained(s, Action.RemoveExpired, now, s', queue, id)
  {
    var victims: seq<Doc> :| ExpiredStep(s, now, victims, s');
    if !s.keys.running {
      var v := EvictExplained(s, victims, s', queue, id);
      assert v in victims ==> Stored(s.shelf.docs, v) && v.expiry <= now;
      hide EvictStep;
      hide Answers;
    }
  }

  lemma ExceedingExplained(s: Sys, q: string, maxElements: int, now: nat, s': Sys, queue: string, id: string)
    requires Next(s, Action.RemoveExceeding(q, maxElements), now, s')
    ensures Explained(s, Action.RemoveExceeding(q, maxElements), now, s', queue, id)
  {
    var victims: seq<Doc> :| ExceedingStep(s, q, maxElements, now, victims, s');
    if s' != s {
      var v := EvictExplained(s, victims, s', queue, id);
      assert v in victims ==> Stored(s.shelf.docs, v) && v.queue == q && Live(v, now);
      hide EvictStep;
      hide Answers;
    }
  }

  lemma RecalledIsLive(s: Sys, keys: RecoveryKeys.Keys, batch: seq<Doc>, queue: string, id: string, scanAt: nat)
    requires Answers(s.shelf.docs, scanAt, ScanFilter(keys), ByIdAscending, RECOVERY_BATCH, batch)
    requires id in Latest(Part(Recalled(batch), queue))
    ensures HasLive(s, queue, id, scanAt)
  {
    var i := PartComesFrom(Recalled(batch), queue, id);
    assert batch[i] in batch;
    assert Stored(s.shelf.docs, batch[i]) && Live(batch[i], scanAt);
  }

  lemma RecoverExplained(s: Sys, scanAt: nat, now: nat, s': Sys, queue: string, id: string)
    requires Next(s, Action.Recover(scanAt), now, s')
    ensures Explained(s, Action.Recover(scanAt), now, s', queue, id)
  {
    var last, batch :| RecoverStep(s, now, scanAt, last, batch, s');
    if s'.cache != s.cache {
      FillsExplains(s.Pool(queue), Part(Recalled(batch), queue), s'.Pool(queue), id);
      var keys := if MustStart(s.keys) then Started(s.keys, last) else s.keys;
      if id in Latest(Part(Recalled(batch), queue)) {
        RecalledIsLive(s, keys, batch, queue, id, scanAt);
      }
    }
    hide Answers;
    hide Fills;
    hide HasLive;
  }

  lemma NextExplained(s: Sys, action: Action, now: nat, s': Sys, queue: string, id: string)
    requires Next(s, action, now, s')
    ensures Explained(s, action, now, s', queue, id)
  {
    match action
    case Add(items) => AddExplained(s, items, now, s', queue, id); hide Next; hide Explained;
    case Pull(q, op, retryAt) => PullExplained(s, q, op, retryAt, now, s', queue, id); hide Next; hide Explained;
    case Settle(kind, q, i, r) => SettleExplained(s, kind, q, i, r, now, s', queue, id); hide Next; hide Explained;
    case SettleAndRemove(kind, q, i, r) =>
      SettleAndRemoveExplained(s, kind, q, i, r, now, s', queue, id);
      hide Next;
      hide Explained;
    case Remove(q, ids) => RemoveExplained(s, q, ids, now, s', queue, id); hide Next; hide Explained;
    case Housekeep(op) => SweepExplained(s, op, now, s', queue, id); hide Next; hide Explained;
    case RemoveExpired => ExpiredExplained(s, now, s', queue, id); hide Next; hide Explained;
    case RemoveExceeding(q, maxElements) =>
      ExceedingExplained(s, q, maxElements, now, s', queue, id);
      hide Next;
      hide Explained;
    case Recover(scanAt) => RecoverExplained(s, scanAt, now, s', queue, id); hide Next; hide Explained;
    case WipeCache =>
    case FlushAll =>
  }

  lemma RemoveExplained(s: Sys, q: string, ids: seq<string>, now: nat, s': Sys, queue: string, id: string)
    requires Next(s, Action.Remove(q, ids), now, s')
    ensures Explained(s, Action.Remove(q, ids), now, s', queue, id)
  {
  }

  // ---------- runs ----------

  /** The pull `i` of a run hands out the message: it was active and is processing until the deadline. */
  ghost predicate Delivers(run: Run, i: int, queue: string, id: string)
    requires run.Valid()
  {
    && 0 <= i < |run.actions| && run.actions[i].Pull? && run.actions[i].queue == queue && run.actions[i].op.Pull?
    && IsActive(run.states[i], queue, id)
    && IsAt(run.states[i + 1], queue, id, Processing(run.actions[i].op.deadline))
  }

  /** Action `i` is an ack or nack that locks the message. */
  ghost predicate Locks(run: Run, i: int, queue: string, id: string)
    requires run.Valid()
  {
    && 0 <= i < |run.actions| && run.actions[i].Settle? && run.actions[i].reply.lockMs > 0
    && run.actions[i].queue == queue && run.actions[i].id == id
    && IsAt(run.states[i + 1], queue, id, LockOf(run.actions[i], run.times[i]))
  }

  /** Action `l` takes the message out of the cache. */
  ghost predicate DropsAt(run: Run, l: int, queue: string, id: string)
    requires run.Valid()
  {
    && 0 <= l < |run.actions|
    && !IsAbsent(run.states[l], queue, id) && IsAbsent(run.states[l + 1], queue, id)
    && Drops(run.states[l], run.actions[l], run.times[l], queue, id)
  }

  /** Action `m` makes the message active again after pull `i`: it settles the processing message
      without a lock, times it out when that is due, unlocks it when that is due after it was locked
      since, or brings it back into a cache that had dropped it since. */
  ghost predicate Redelivers(run: Run, i: int, m: int, queue: string, id: string)
    requires run.Valid()
  {
    && i < m < |run.actions| && 0 <= m
    && !IsActive(run.states[m], queue, id) && IsActive(run.states[m + 1], queue, id)
    && Activates(run.states[m], run.actions[m], queue, id)
    && (IsLocked(run.states[m], queue, id) ==> exists l :: i < l < m && Locks(run, l, queue, id))
    && (IsAbsent(run.states[m], queue, id) ==> exists l :: i < l < m && DropsAt(run, l, queue, id))
  }

  lemma ExplainedAt(run: Run, m: nat, queue: string, id: string)
    requires run.Valid() && m < |run.actions|
    ensures Explained(run.states[m], run.actions[m], run.times[m], run.states[m + 1], queue, id)
  {
    StepOf(run, m);
    hide Next;
    hide Explained;
    NextExplained(run.states[m], run.actions[m], run.times[m], run.states[m + 1], queue, id);
  }

  lemma LockedBetween(run: Run, a: nat, m: nat, queue: string, id: string)
    requires run.Valid() && a < m <= |run.actions|
    requires !IsLocked(run.states[a], queue, id) && IsLocked(run.states[m], queue, id)
    ensures exists l :: a <= l < m && Locks(run, l, queue, id)
  {
    var holds := seq(|run.states|, x requires 0 <= x < |run.states| => IsLocked(run.states[x], queue, id));
    var l := PoolRuns.Crossing(holds, a, m);
    ExplainedAt(run, l, queue, id);
    assert Locks(run, l, queue, id);
  }

  lemma DroppedBetween(run: Run, a: nat, m: nat, queue: string, id: string)
    requires run.Valid() && a < m <= |run.actions|
    requires !IsAbsent(run.states[a], queue, id) && IsAbsent(run.states[m], queue, id)
    ensures exists l :: a <= l < m && DropsAt(run, l, queue, id)
  {
    var holds := seq(|run.states|, x requires 0 <= x < |run.states| => IsAbsent(run.states[x], queue, id));
    var l := PoolRuns.Crossing(holds, a, m);
    ExplainedAt(run, l, queue, id);
    assert DropsAt(run, l, queue, id);
  }

  /** Exclusive delivery on the server: between two pulls that hand out the same message, an action
      let it be delivered again. */
  lemma ExclusiveService(run: Run, i: nat, j: nat, queue: string, id: string)
    requires run.Valid() && i < j && Delivers(run, i, queue, id) && Delivers(run, j, queue, id)
    ensures exists m :: m < j && Redelivers(run, i, m, queue, id)
  {
    hide Next;
    var holds := seq(|run.states|, x requires 0 <= x < |run.states| => IsActive(run.states[x], queue, id));
    var m := PoolRuns.Crossing(holds, i + 1, j);
    ExplainedAt(run, m, queue, id);
    if IsLocked(run.states[m], queue, id) {
      LockedBetween(run, i + 1, m, queue, id);
    }
    if IsAbsent(run.states[m], queue, id) {
      DroppedBetween(run, i + 1, m, queue, id);
    }
    assert Redelivers(run, i, m, queue, id);
  }

  /** A message that is processing or locked was put there by one pull or settlement and has not moved since. */
  lemma {:induction false} OriginInRun(run: Run, j: nat, queue: string, id: string) returns (i: nat)
    requires run.Valid() && j <= |run.actions| && id in run.states[j].Pool(queue)
    requires !run.states[j].Pool(queue)[id].Active?
    ensures i < j && forall m | i < m <= j :: IsAt(run.states[m], queue, id, run.states[j].Pool(queue)[id])
    ensures var loc := run.states[j].Pool(queue)[id];
            && (loc.Processing? ==> Delivers(run, i, queue, id) && run.actions[i].op.deadline == loc.deadline)
            && (loc.Locked? ==> Locks(run, i, queue, id) && loc == LockOf(run.actions[i], run.times[i]))
  {
    hide Next;
    var loc := run.states[j].Pool(queue)[id];
    assert j > 0 by {
      assert EMPTY.Pool(queue) == map[];
    }
    ExplainedAt(run, j - 1, queue, id);
    if IsAt(run.states[j - 1], queue, id, loc) {
      i := OriginInRun(run, j - 1, queue, id);
    } else {
      i := j - 1;
    }
  }

  /** On the server a message is timed out only after the deadline of the pull that handed it out. */
  lemma ServiceTimeoutNeverEarly(run: Run, j: nat, queue: string, id: string) returns (i: nat)
    requires run.Valid() && j < |run.actions| && run.actions[j].Housekeep? && run.actions[j].op.Timeout?
    requires !IsActive(run.states[j], queue, id) && IsActive(run.states[j + 1], queue, id)
    ensures i < j && Delivers(run, i, queue, id) && run.actions[i].op.deadline <= run.actions[j].op.now
    ensures forall m | i < m <= j :: IsAt(run.states[m], queue, id, Processing(run.actions[i].op.deadline))
    ensures IsAt(run.states[j + 1], queue, id, Active(MIN))
  {
    StepOf(run, j);
    SweepExplained(run.states[j], run.actions[j].op, run.times[j], run.states[j + 1], queue, id);
    hide Next;
    i := OriginInRun(run, j, queue, id);
  }

  /** On the server an unlocked message was locked by an ack or nack whose lock time has passed, and
      gets the score that call gave, or the fallback. */
  lemma ServiceUnlockRestoresScore(run: Run, j: nat, queue: string, id: string) returns (i: nat)
    requires run.Valid() && j < |run.actions| && run.actions[j].Housekeep? && run.actions[j].op.Unlock?
    requires !IsActive(run.states[j], queue, id) && IsActive(run.states[j + 1], queue, id)
    ensures i < j && Locks(run, i, queue, id) && run.actions[i].kind == run.actions[j].op.kind
    ensures (Ms(run.times[i]) + run.actions[i].reply.lockMs) as real <= run.actions[j].op.now
    ensures forall m | i < m <= j :: IsAt(run.states[m], queue, id, LockOf(run.actions[i], run.times[i]))
    ensures var given := ReplyScore(run.actions[i].kind, run.actions[i].reply, run.times[i]);
            IsAt(run.states[j + 1], queue, id, Active(Resolve(given, run.actions[j].op.fallback)))
  {
    StepOf(run, j);
    SweepExplained(run.states[j], run.actions[j].op, run.times[j], run.states[j + 1], queue, id);
    hide Next;
    i := OriginInRun(run, j, queue, id);
  }
}
