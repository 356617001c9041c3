/** The common shape behind both caches: one id-indexed map per pool.

    The in-memory lists and the Redis sorted sets are both read as `Maps`, and the
    lemmas here turn updates of these maps into steps of the abstract machine. */
module PoolMaps {
  import opened Score
  import opened Pools

  datatype Hold = Hold(until: real, score: real)

  datatype Maps = Maps(active: map<string, real>, processing: map<string, real>,
                       lockAck: map<string, Hold>, lockNack: map<string, Hold>)
  {
    function Locks(kind: LockKind): map<string, Hold> {
      if kind == LockAck then lockAck else lockNack
    }

    function WithLocks(kind: LockKind, l: map<string, Hold>): Maps {
      if kind == LockAck then this.(lockAck := l) else this.(lockNack := l)
    }

    function Ids(): set<string> {
      active.Keys + processing.Keys + lockAck.Keys + lockNack.Keys
    }

    predicate InOnePool(id: string) {
      && (id in active ==> id !in processing && id !in lockAck && id !in lockNack)
      && (id in processing ==> id !in lockAck && id !in lockNack)
      && (id in lockAck ==> id !in lockNack)
    }

    /** No id is in two pools. */
    ghost predicate Disjoint() {
      forall id :: InOnePool(id)
    }

    function Where(id: string): Loc
      requires id in Ids()
    {
      if id in active then Active(active[id])
      else if id in processing then Processing(processing[id])
      else if id in lockAck then Locked(LockAck, lockAck[id].until, lockAck[id].score)
      else Locked(LockNack, lockNack[id].until, lockNack[id].score)
    }

    function Table(): Table {
      map id | id in Ids() :: Where(id)
    }
  }

  /** `t` gives `id` the location it has in `m`. */
  predicate Agrees(m: Maps, t: Table, id: string) {
    (id in t <==> id in m.Ids()) && (id in t ==> t[id] == m.Where(id))
  }

  lemma TableByPoints(m: Maps, t: Table)
    requires forall id :: Agrees(m, t, id)
    ensures m.Table() == t
  {
    forall id ensures id in m.Table() <==> id in t { assert Agrees(m, t, id); }
    forall id | id in t ensures m.Table()[id] == t[id] { assert Agrees(m, t, id); }
  }

  lemma InsertMaps(m: Maps, m': Maps, messages: seq<Msg>, ids: seq<string>)
    requires m.Disjoint()
    requires m' == m.(active := m.active + map id | id in Latest(messages) && id !in m.Ids() :: Latest(messages)[id])
    requires forall id :: id in ids <==> id in Latest(messages) && id !in m.Ids()
    ensures m'.Disjoint() && Step(m.Table(), Insert(messages), ids, m'.Table())
  {
    var latest := Latest(messages);
    var t := m.Table() + map id | id in latest && id !in m.Table() :: Active(latest[id]);
    forall id ensures m'.InOnePool(id) && Agrees(m', t, id) { assert m.InOnePool(id); }
    TableByPoints(m', t);
  }

  /** The ids a pull may answer, told by the active map alone. */
  ghost predicate PullOrdered(active: map<string, real>, op: Op, ids: seq<string>)
    requires op.Pull?
  {
    && NoRepeats(ids) && (op.n >= 1 ==> |ids| <= op.n)
    && (forall id | id in ids :: id in active && InRange(active[id], op.min, op.max))
    && (forall i, j | 0 <= i < j < |ids| :: active[ids[i]] <= active[ids[j]])
    && (forall id, other | id in ids && other in active && other !in ids ::
          InRange(active[other], op.min, op.max) ==> active[id] <= active[other])
    && (op.n >= 1 && op.min.None? && |ids| < op.n ==>
          forall other | other in active && InRange(active[other], op.min, op.max) :: other in ids)
  }

  lemma PullTable(m: Maps, m': Maps, op: Op, ids: seq<string>)
    requires m.Disjoint() && op.Pull? && SetOf(ids) <= m.active.Keys
    requires m' == m.(active := m.active - SetOf(ids),
                      processing := m.processing + map id | id in ids :: op.deadline)
    ensures m'.Disjoint()
    ensures m'.Table() == m.Table() + map id | id in ids :: Processing(op.deadline)
  {
    var t := m.Table() + map id | id in ids :: Processing(op.deadline);
    forall id ensures m'.InOnePool(id) && Agrees(m', t, id) {
      assert m.InOnePool(id);
      assert id in ids <==> id in SetOf(ids);
    }
    TableByPoints(m', t);
  }

  lemma ActiveInTable(m: Maps)
    requires m.Disjoint()
    ensures forall id :: id in m.active <==> id in m.Table() && m.Table()[id].Active?
    ensures forall id | id in m.active :: m.Table()[id] == Active(m.active[id])
  {
    forall id ensures id in m.active <==> id in m.Table() && m.Table()[id].Active? { assert m.InOnePool(id); }
    forall id | id in m.active ensures m.Table()[id] == Active(m.active[id]) { assert m.InOnePool(id); }
  }

  lemma PullMaps(m: Maps, m': Maps, op: Op, ids: seq<string>)
    requires m.Disjoint() && op.Pull? && PullOrdered(m.active, op, ids)
    requires m' == m.(active := m.active - SetOf(ids),
                      processing := m.processing + map id | id in ids :: op.deadline)
    ensures m'.Disjoint() && Step(m.Table(), op, ids, m'.Table())
  {
    PullTable(m, m', op, ids);
    ActiveInTable(m);
  }

  /** Timeout and Unlock may move nothing. */
  lemma NothingMoved(m: Maps, op: Op)
    requires op.Timeout? || op.Unlock?
    ensures Step(m.Table(), op, [], m.Table())
  {
  }

  lemma MakeAvailableMaps(m: Maps, m': Maps, id: string, score: real)
    requires m.Disjoint() && id in m.processing
    requires m' == m.(processing := m.processing - {id}, active := m.active[id := score])
    ensures m'.Disjoint() && Step(m.Table(), MakeAvailable(id, score), [id], m'.Table())
  {
    var t := m.Table()[id := Active(score)];
    forall x ensures m'.InOnePool(x) && Agrees(m', t, x) { assert m.InOnePool(x); }
    TableByPoints(m', t);
    assert m.InOnePool(id);
  }

  lemma LockMaps(m: Maps, m': Maps, id: string, kind: LockKind, until: real, score: real)
    requires m.Disjoint() && id in m.processing
    requires m' == m.(processing := m.processing - {id}).WithLocks(kind, m.Locks(kind)[id := Hold(until, score)])
    ensures m'.Disjoint() && Step(m.Table(), Lock(id, kind, until, score), [id], m'.Table())
  {
    var t := m.Table()[id := Locked(kind, until, score)];
    forall x ensures m'.InOnePool(x) && Agrees(m', t, x) { assert m.InOnePool(x); }
    TableByPoints(m', t);
    assert m.InOnePool(id);
  }

  /** An id that is not processing: MakeAvailable and Lock refuse it. */
  lemma NotProcessing(m: Maps, id: string)
    requires id !in m.processing
    ensures !(id in m.Table() && m.Table()[id].Processing?)
  {
  }

  lemma TimeoutMaps(m: Maps, m': Maps, now: real, ids: seq<string>)
    requires m.Disjoint() && NoRepeats(ids)
    requires forall id | id in ids :: id in m.processing && m.processing[id] <= now
    requires m' == m.(processing := m.processing - SetOf(ids), active := m.active + map id | id in ids :: MIN)
    ensures m'.Disjoint() && Step(m.Table(), Timeout(now), ids, m'.Table())
  {
    var t := m.Table() + map id | id in ids :: Active(MIN);
    forall id ensures m'.InOnePool(id) && Agrees(m', t, id) {
      assert m.InOnePool(id);
      assert id in ids <==> id in SetOf(ids);
    }
    TableByPoints(m', t);
    forall id | id in ids ensures DueToTimeOut(m.Table(), now, id) { assert m.InOnePool(id); }
  }

  lemma UnlockMaps(m: Maps, m': Maps, kind: LockKind, now: real, fallback: real, ids: seq<string>)
    requires m.Disjoint() && NoRepeats(ids)
    requires forall id | id in ids :: id in m.Locks(kind) && m.Locks(kind)[id].until <= now
    requires m' == m.WithLocks(kind, m.Locks(kind) - SetOf(ids))
                   .(active := m.active + map id | id in ids :: Resolve(m.Locks(kind)[id].score, fallback))
    ensures m'.Disjoint() && Step(m.Table(), Unlock(kind, now, fallback), ids, m'.Table())
  {
    hide Maps.Table;
    hide Maps.Disjoint;
    forall id | id in ids
      ensures DueToUnlock(m.Table(), kind, now, id) && m.Table()[id].score == m.Locks(kind)[id].score
    {
      LockedInTable(m, kind, id);
    }
    UnlockTable(m, m', kind, fallback, ids);
  }

  lemma LockedInTable(m: Maps, kind: LockKind, id: string)
    requires m.Disjoint() && id in m.Locks(kind)
    ensures id in m.Table() && m.Table()[id] == Locked(kind, m.Locks(kind)[id].until, m.Locks(kind)[id].score)
  {
    assert m.InOnePool(id);
  }

  lemma UnlockTable(m: Maps, m': Maps, kind: LockKind, fallback: real, ids: seq<string>)
    requires m.Disjoint()
    requires forall id | id in ids :: id in m.Locks(kind)
    requires m' == m.WithLocks(kind, m.Locks(kind) - SetOf(ids))
                   .(active := m.active + map id | id in ids :: Resolve(m.Locks(kind)[id].score, fallback))
    ensures m'.Disjoint()
    ensures m'.Table() == m.Table() + map id | id in ids :: Active(Resolve(m.Locks(kind)[id].score, fallback))
  {
    var t := m.Table() + map id | id in ids :: Active(Resolve(m.Locks(kind)[id].score, fallback));
    forall id ensures m'.InOnePool(id) && Agrees(m', t, id) {
      assert m.InOnePool(id);
      assert id in ids <==> id in SetOf(ids);
    }
    TableByPoints(m', t);
  }

  lemma TimeoutMap(m: Maps, m': Maps, now: real, id: string)
    requires m.Disjoint() && id in m.processing && m.processing[id] <= now
    requires m' == m.(processing := m.processing - {id}, active := m.active[id := MIN])
    ensures m'.Disjoint() && Step(m.Table(), Timeout(now), [id], m'.Table())
  {
    assert m'.active == m.active + map x | x in [id] :: MIN;
    assert SetOf([id]) == {id};
    TimeoutMaps(m, m', now, [id]);
  }

  lemma UnlockMap(m: Maps, m': Maps, kind: LockKind, now: real, fallback: real, id: string)
    requires m.Disjoint() && id in m.Locks(kind) && m.Locks(kind)[id].until <= now
    requires m' == m.WithLocks(kind, m.Locks(kind) - {id})
                   .(active := m.active[id := Resolve(m.Locks(kind)[id].score, fallback)])
    ensures m'.Disjoint() && Step(m.Table(), Unlock(kind, now, fallback), [id], m'.Table())
  {
    assert m'.active == m.active + map x | x in [id] :: Resolve(m.Locks(kind)[x].score, fallback);
    assert SetOf([id]) == {id};
    UnlockMaps(m, m', kind, now, fallback, [id]);
  }

  lemma RemoveMaps(m: Maps, m': Maps, removed: seq<string>)
    requires m.Disjoint()
    requires m' == Maps(m.active - SetOf(removed), m.processing - SetOf(removed),
                        m.lockAck - SetOf(removed), m.lockNack - SetOf(removed))
    ensures m'.Disjoint() && Step(m.Table(), Remove(removed), [], m'.Table())
  {
    var t := m.Table() - SetOf(removed);
    forall id ensures m'.InOnePool(id) && Agrees(m', t, id) { assert m.InOnePool(id); }
    TableByPoints(m', t);
  }
}
