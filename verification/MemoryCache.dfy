/** The in-memory cache of memory_cache.go. Every method runs under one mutex, so each
    call is one step; its contract says what happens to the four lists of every queue. */
module MemoryCaches {
  import opened Score
  import opened Pools
  import opened EntryLists
  import opened MemoryPools
  import PoolMaps
  import opened Clock
  import opened RecoveryKeys

  type ListsByQueue = map<string, EntryList>

  datatype Result<+T> = Ok(value: T) | Err(error: string)

  /** A queue without a list has an empty one. */
  function ListOf(m: ListsByQueue, queue: string): EntryList {
    if queue in m then m[queue] else []
  }

  /** All lists of the cache at one moment. */
  datatype Store = Store(queues: ListsByQueue, processingQueues: ListsByQueue,
                         lockAckQueues: ListsByQueue, lockNackQueues: ListsByQueue)
  {
    function At(queue: string): Lists {
      Lists(ListOf(queues, queue), ListOf(processingQueues, queue),
            ListOf(lockAckQueues, queue), ListOf(lockNackQueues, queue))
    }

    ghost predicate Valid() {
      forall queue :: Inv(At(queue))
    }
  }

  /** Operation `op` ran on `queue` and nothing else changed. */
  ghost predicate Performed(s: Store, s': Store, queue: string, op: Op) {
    && s'.At(queue) == Apply(s.At(queue), op).0
    && forall other | other != queue :: s'.At(other) == s.At(other)
  }

  lemma StaysValid(s: Store, s': Store, queue: string, op: Op)
    requires s.Valid() && Performed(s, s', queue, op)
    ensures s'.Valid()
  {
    forall other ensures Inv(s'.At(other)) {
      if other == queue {
        Refines(s.At(queue), op);
      } else {
        assert Inv(s.At(other));
      }
    }
  }

  lemma OpensAt(s: Store, kind: LockKind, now: nat, queue: string)
    requires s.Valid()
    ensures var (p', ids) := Apply(s.At(queue), UnlockAt(kind, now));
            Opened(Abs(s.At(queue)), kind, now, ids, Abs(p'))
  {
    assert Inv(s.At(queue));
    Refines(s.At(queue), UnlockAt(kind, now));
    var (p', ids) := Apply(s.At(queue), UnlockAt(kind, now));
    hide Abs;
    hide Apply;
    UnlockOpens(Abs(s.At(queue)), kind, now, ids, Abs(p'));
  }

  class MemoryCache {
    var queues: ListsByQueue
    var processingQueues: ListsByQueue
    var lockAckQueues: ListsByQueue
    var lockNackQueues: ListsByQueue
    var keys: Keys

    ghost function State(): Store
      reads this
    {
      Store(queues, processingQueues, lockAckQueues, lockNackQueues)
    }

    ghost function At(queue: string): Lists
      reads this
    {
      State().At(queue)
    }

    ghost predicate Valid()
      reads this
    {
      State().Valid()
    }

    constructor ()
      ensures Valid() && keys == NO_KEYS
      ensures State() == Store(map[], map[], map[], map[])
    {
      queues, processingQueues, lockAckQueues, lockNackQueues := map[], map[], map[], map[];
      keys := NO_KEYS;
    }

    method Flush()
      modifies this
      ensures Valid() && keys == NO_KEYS
      ensures State() == Store(map[], map[], map[], map[])
    {
      queues, processingQueues, lockAckQueues, lockNackQueues := map[], map[], map[], map[];
      keys := NO_KEYS;
    }

    method Remove(queue: string, ids: seq<string>) returns (removed: int)
      requires Valid()
      modifies `queues, `processingQueues, `lockAckQueues, `lockNackQueues
      ensures Valid() && Performed(old(State()), State(), queue, Pools.Remove(ids))
      ensures removed == Size(old(At(queue))) - Size(At(queue))
    {
      removed := RemoveFromLists(queue, ids);
      StaysValid(old(State()), State(), queue, Pools.Remove(ids));
    }

    method RemoveFromLists(queue: string, ids: seq<string>) returns (removed: int)
      modifies `queues, `processingQueues, `lockAckQueues, `lockNackQueues
      ensures queues == old(queues)[queue := RemoveAll(ListOf(old(queues), queue), ids)]
      ensures processingQueues == old(processingQueues)[queue := RemoveAll(ListOf(old(processingQueues), queue), ids)]
      ensures lockAckQueues == old(lockAckQueues)[queue := RemoveAll(ListOf(old(lockAckQueues), queue), ids)]
      ensures lockNackQueues == old(lockNackQueues)[queue := RemoveAll(ListOf(old(lockNackQueues), queue), ids)]
      ensures removed == Size(old(At(queue))) - Size(At(queue))
    {
      removed := 0;
      var data, result := RemoveEach(ListOf(queues, queue), ids);
      queues := queues[queue := data];
      removed := removed + result;
      data, result := RemoveEach(ListOf(processingQueues, queue), ids);
      processingQueues := processingQueues[queue := data];
      removed := removed + result;
      data, result := RemoveEach(ListOf(lockAckQueues, queue), ids);
      lockAckQueues := lockAckQueues[queue := data];
      removed := removed + result;
      data, result := RemoveEach(ListOf(lockNackQueues, queue), ids);
      lockNackQueues := lockNackQueues[queue := data];
      removed := removed + result;
    }

    method MakeAvailable(queue: string, id: string, score: real) returns (r: Result<bool>)
      requires Valid()
      modifies `queues, `processingQueues
      ensures Valid()
      ensures r.Err? <==> queue == ""
      ensures r.Err? ==> unchanged(this)
      ensures r.Ok? ==> Performed(old(State()), State(), queue, Pools.MakeAvailable(id, score))
      ensures r.Ok? ==> (r.value <==> Has(old(At(queue)).processing, id))
    {
      hide Inv;
      hide PutBefore;
      hide RemoveId;
      hide InsertEntry;
      hide Has;
      if queue == "" {
        return Err("invalid message queue");
      }
      var data, found := RemoveFrom(ListOf(processingQueues, queue), id);
      processingQueues := processingQueues[queue := data];
      if found {
        data := InsertInto(ListOf(queues, queue), Entry(id, score, 0.0));
        queues := queues[queue := data];
      } else {
        RemoveIdAbsent(ListOf(old(processingQueues), queue), id);
      }
      r := Ok(found);
      StaysValid(old(State()), State(), queue, Pools.MakeAvailable(id, score));
    }

    method LockMessage(queue: string, id: string, score: real, lockMs: int, kind: LockKind, now: nat)
      returns (r: Result<bool>)
      requires Valid()
      modifies `processingQueues, `lockAckQueues, `lockNackQueues
      ensures Valid()
      ensures r.Err? <==> queue == "" || lockMs <= 0
      ensures r.Err? ==> unchanged(this)
      ensures r.Ok? ==> Performed(old(State()), State(), queue, Lock(id, kind, (Ms(now) + lockMs) as real, score))
      ensures r.Ok? ==> (r.value <==> Has(old(At(queue)).processing, id))
    {
      if queue == "" {
        return Err("invalid queue to lock");
      }
      if lockMs <= 0 {
        return Err("invalid lock seconds");
      }
      if queue !in processingQueues {
        return Ok(false);
      }
      hide Inv;
      hide Apply;
      hide RemoveId;
      hide InsertEntry;
      var until := (Ms(now) + lockMs) as real;
      ghost var p := At(queue);
      var data, found := RemoveFrom(ListOf(processingQueues, queue), id);
      processingQueues := processingQueues[queue := data];
      if found {
        Hold(queue, kind, Entry(id, score, until));
      } else {
        RemoveIdAbsent(p.processing, id);
      }
      r := Ok(found);
      LockAsFound(p, id, kind, until, score);
      StaysValid(old(State()), State(), queue, Lock(id, kind, until, score));
    }

    method Hold(queue: string, kind: LockKind, entry: Entry)
      modifies `lockAckQueues, `lockNackQueues
      ensures forall other | other != queue :: State().At(other) == old(State()).At(other)
      ensures var p := old(At(queue)); At(queue) == p.WithLocks(kind, InsertEntry(p.Locks(kind), entry))
    {
      hide PutBefore;
      hide InsertEntry;
      match kind {
        case LockAck =>
          var data := InsertInto(ListOf(lockAckQueues, queue), entry);
          lockAckQueues := lockAckQueues[queue := data];
        case LockNack =>
          var data := InsertInto(ListOf(lockNackQueues, queue), entry);
          lockNackQueues := lockNackQueues[queue := data];
      }
    }

    method PullMessages(queue: string, n: int, min: Option<real>, max: Option<real>, ackDeadlineMs: int, now: nat)
      returns (ids: seq<string>)
      requires Valid()
      modifies `queues, `processingQueues
      ensures Valid()
      ensures var op := Pull(n, min, max, MemoryDeadline(now, ackDeadlineMs));
              Performed(old(State()), State(), queue, op) && ids == Apply(old(At(queue)), op).1
    {
      if |ListOf(queues, queue)| == 0 {
        return [];
      }
      var deadline := MemoryDeadline(now, ackDeadlineMs);
      var active, processing, filteredOut;
      active, processing, ids, filteredOut :=
        TakeFromFront(ListOf(queues, queue), ListOf(processingQueues, queue), n, min, max, deadline);
      active := InsertEach(active, filteredOut);
      queues, processingQueues := queues[queue := active], processingQueues[queue := processing];
      StaysValid(old(State()), State(), queue, Pull(n, min, max, deadline));
    }

    method TimeoutMessages(queue: string, now: nat) returns (ids: seq<string>)
      requires Valid()
      modifies `queues, `processingQueues
      ensures Valid()
      ensures var op := Timeout(Sec(now) as real);
              Performed(old(State()), State(), queue, op) && ids == Apply(old(At(queue)), op).1
    {
      hide Inv;
      hide Apply;
      var op := Timeout(Sec(now) as real);
      ghost var p := At(queue);
      var walked := ListOf(processingQueues, queue);
      ids := [];
      var e := 0;
      while e < |walked|
        invariant 0 <= e <= |walked| && State() == old(State())
        invariant forall j | 0 <= j < e :: !TimedOut(op.now)(walked[j])
      {
        var value := walked[e];
        if value.score <= op.now {
          TimeoutAtIndex(p, op, e);
          TimeOut(queue, e);
          ids := [value.id];
          // The removed element has no successor: the walk ends here.
          StaysValid(old(State()), State(), queue, op);
          return;
        }
        e := e + 1;
      }
      TimeoutAtIndex(p, op, e);
      StaysValid(old(State()), State(), queue, op);
    }

    /** Moves the processing entry at position `e` to the active list. The score is overwritten
        while the entry is still in the list, then it is removed by id. */
    method TimeOut(queue: string, e: nat)
      requires Valid() && e < |At(queue).processing|
      modifies `queues, `processingQueues
      ensures forall other | other != queue :: State().At(other) == old(State()).At(other)
      ensures var p := old(At(queue));
              var value := p.processing[e];
              At(queue) == p.(processing := RemoveId(p.processing, value.id),
                              active := InsertEntry(p.active, value.(score := MIN)))
    {
      hide PutBefore;
      hide Inv;
      hide RemoveId;
      DistinctLocks(At(queue), LockAck);
      var walked := ListOf(processingQueues, queue);
      var cleared := walked[e].(score := MIN);
      var overwritten := walked[e := cleared];
      var data, _ := RemoveFrom(overwritten, cleared.id);
      RemoveIdAt(walked, e);
      RemoveIdAt(overwritten, e);
      processingQueues := processingQueues[queue := data];
      data := InsertInto(ListOf(queues, queue), cleared);
      queues := queues[queue := data];
    }

    /** Unlocks in every queue that has a lock list. The source's loop variable hides the queue
        argument, so the queue it is asked for plays no part. */
    method UnlockMessages(queue: string, kind: LockKind, now: nat) returns (ids: seq<string>)
      requires Valid()
      modifies `queues, `lockAckQueues, `lockNackQueues
      ensures Valid()
      ensures forall other :: State().At(other) == Apply(old(State()).At(other), UnlockAt(kind, now)).0
      ensures forall id :: id in ids <==>
                exists other :: id in Apply(old(State()).At(other), UnlockAt(kind, now)).1
      ensures forall other :: Opened(Abs(old(State()).At(other)), kind, now,
                Apply(old(State()).At(other), UnlockAt(kind, now)).1, Abs(State().At(other)))
    {
      hide Apply;
      hide Inv;
      hide Abs;
      hide Opened;
      ghost var s, op := State(), UnlockAt(kind, now);
      var todo := if kind == LockAck then lockAckQueues.Keys else lockNackQueues.Keys;
      ids := [];
      forall other | other !in todo ensures Apply(s.At(other), op) == (s.At(other), []) {
        NothingLocked(s.At(other), kind, now);
      }
      while todo != {}
        invariant Valid()
        invariant forall other | other in todo :: State().At(other) == s.At(other)
        invariant forall other | other !in todo :: State().At(other) == Apply(s.At(other), op).0
        invariant forall id :: id in ids <==> exists other :: other !in todo && id in Apply(s.At(other), op).1
        decreases todo
      {
        var other :| other in todo;
        var moved := UnlockQueue(other, kind, now);
        ids := ids + moved;
        todo := todo - {other};
      }
      forall other { OpensAt(s, kind, now, other); }
    }

    method UnlockQueue(queue: string, kind: LockKind, now: nat) returns (ids: seq<string>)
      requires Valid()
      modifies `queues, `lockAckQueues, `lockNackQueues
      ensures Valid()
      ensures var op := UnlockAt(kind, now);
              Performed(old(State()), State(), queue, op) && ids == Apply(old(At(queue)), op).1
      ensures Opened(Abs(old(At(queue))), kind, now, ids, Abs(At(queue)))
    {
      hide Abs;
      hide Opened;
      hide Inv;
      hide Apply;
      var op := UnlockAt(kind, now);
      var walked := ListOf(if kind == LockAck then lockAckQueues else lockNackQueues, queue);
      ids := [];
      ghost var p := At(queue);
      OpensAt(State(), kind, now, queue);
      var e := 0;
      while e < |walked|
        invariant 0 <= e <= |walked| && State() == old(State())
        invariant forall j | 0 <= j < e :: !Unlockable(op.now)(walked[j])
      {
        var value := walked[e];
        if value.lockUntil <= op.now {
          UnlockAtIndex(p, op, e);
          Release(queue, kind, e, op.fallback);
          ids := [value.id];
          // The removed element has no successor: the walk ends here.
          StaysValid(old(State()), State(), queue, op);
          return;
        }
        e := e + 1;
      }
      UnlockAtIndex(p, op, e);
      StaysValid(old(State()), State(), queue, op);
    }

    /** Moves the lock entry at position `e` to the active list. */
    method Release(queue: string, kind: LockKind, e: nat, fallback: real)
      requires Valid() && e < |At(queue).Locks(kind)|
      modifies `queues, `lockAckQueues, `lockNackQueues
      ensures forall other | other != queue :: State().At(other) == old(State()).At(other)
      ensures var p := old(At(queue));
              var value := p.Locks(kind)[e];
              At(queue) == p.WithLocks(kind, RemoveId(p.Locks(kind), value.id))
                           .(active := InsertEntry(p.active, value.(score := Resolve(value.score, fallback))))
    {
      hide PutBefore;
      hide Inv;
      DistinctLocks(At(queue), kind);
      var walked := ListOf(if kind == LockAck then lockAckQueues else lockNackQueues, queue);
      RemoveIdAt(walked, e);
      var data := walked[..e] + walked[e + 1..];
      if kind == LockAck {
        lockAckQueues := lockAckQueues[queue := data];
      } else {
        lockNackQueues := lockNackQueues[queue := data];
      }
      data := InsertInto(ListOf(queues, queue), walked[e].(score := Resolve(walked[e].score, fallback)));
      queues := queues[queue := data];
    }

    method Insert(queue: string, messages: seq<QueuedMsg>) returns (r: Result<seq<string>>)
      requires Valid()
      modifies `queues
      ensures Valid()
      ensures r.Err? <==> exists m :: m in messages && m.queue != queue
      ensures r.Err? ==> unchanged(this)
      ensures r.Ok? ==> Performed(old(State()), State(), queue, Pools.Insert(Bare(messages)))
      ensures r.Ok? ==> r.value == Apply(old(State()).At(queue), Pools.Insert(Bare(messages))).1
    {
      hide Apply;
      hide Inv;
      for i := 0 to |messages|
        invariant forall j | 0 <= j < i :: messages[j].queue == queue
      {
        if messages[i].queue != queue {
          assert messages[i] in messages;
          return Err("invalid queue to insert data");
        }
      }
      var insertIds := InsertChecked(queue, Bare(messages));
      r := Ok(insertIds);
    }

    method InsertChecked(queue: string, messages: seq<Msg>) returns (ids: seq<string>)
      requires Valid()
      modifies `queues
      ensures Valid()
      ensures Performed(old(State()), State(), queue, Pools.Insert(messages))
      ensures ids == Apply(old(State()).At(queue), Pools.Insert(messages)).1
    {
      var insertions;
      ids, insertions := NotPresent(queue, messages);
      var data := InsertEach(ListOf(queues, queue), insertions);
      queues := queues[queue := data];
      StaysValid(old(State()), State(), queue, Pools.Insert(messages));
    }

    /** The messages of a batch that no pool of the queue holds yet. */
    method NotPresent(queue: string, messages: seq<Msg>) returns (ids: seq<string>, entries: seq<Entry>)
      ensures entries == Fresh(At(queue), messages) && ids == Ids(entries)
    {
      ids, entries := [], [];
      for i := 0 to |messages|
        invariant entries == Fresh(At(queue), messages[..i]) && ids == Ids(entries)
      {
        var present := PresentInAnyPool(queue, messages[i].id);
        assert messages[..i + 1][..i] == messages[..i];
        if !present {
          Snoc(entries, ToEntry(messages[i]));
          entries := entries + [ToEntry(messages[i])];
          ids := ids + [messages[i].id];
        }
      }
      assert messages[..|messages|] == messages;
    }

    method PresentInAnyPool(queue: string, id: string) returns (present: bool)
      ensures present <==> At(queue).HasAny(id)
    {
      var active := Contains(ListOf(queues, queue), id);
      var processing := Contains(ListOf(processingQueues, queue), id);
      var ackLocked := Contains(ListOf(lockAckQueues, queue), id);
      var nackLocked := Contains(ListOf(lockNackQueues, queue), id);
      return active || processing || ackLocked || nackLocked;
    }

    method IsProcessing(queue: string, id: string) returns (r: bool)
      requires Valid()
      ensures r <==> id in Abs(At(queue)) && Abs(At(queue))[id].Processing?
    {
      r := Contains(ListOf(processingQueues, queue), id);
      assert Inv(State().At(queue));
      HasIsMember(At(queue), id);
      assert MapsOf(At(queue)).InOnePool(id);
    }
  }

  lemma DistinctLocks(p: Lists, kind: LockKind)
    requires Inv(p)
    ensures DistinctIds(p.Locks(kind)) && DistinctIds(p.processing)
  {
  }

  lemma LockAsFound(p: Lists, id: string, kind: LockKind, until: real, score: real)
    ensures Apply(p, Lock(id, kind, until, score)).0
            == if Has(p.processing, id)
               then p.(processing := RemoveId(p.processing, id))
                    .WithLocks(kind, InsertEntry(p.Locks(kind), Entry(id, score, until)))
               else p
  {
  }

  /** A timeout that finds its first due entry at `e`, or none. */
  lemma TimeoutAtIndex(p: Lists, op: Op, e: nat)
    requires op.Timeout? && e <= |p.processing|
    requires forall j | 0 <= j < e :: !TimedOut(op.now)(p.processing[j])
    requires e < |p.processing| ==> TimedOut(op.now)(p.processing[e])
    ensures var l := p.processing;
            Apply(p, op) == if e == |l| then (p, [])
                            else (p.(processing := RemoveId(l, l[e].id),
                                     active := InsertEntry(p.active, l[e].(score := MIN))), [l[e].id])
  {
    var i := FirstIndex(p.processing, TimedOut(op.now));
    assert i == e;
  }

  /** An unlock that finds its first due entry at `e`, or none. */
  lemma UnlockAtIndex(p: Lists, op: Op, e: nat)
    requires op.Unlock? && e <= |p.Locks(op.kind)|
    requires forall j | 0 <= j < e :: !Unlockable(op.now)(p.Locks(op.kind)[j])
    requires e < |p.Locks(op.kind)| ==> Unlockable(op.now)(p.Locks(op.kind)[e])
    ensures var l := p.Locks(op.kind);
            Apply(p, op) == if e == |l| then (p, [])
                            else (p.WithLocks(op.kind, RemoveId(l, l[e].id))
                                  .(active := InsertEntry(p.active,
                                    l[e].(score := Resolve(l[e].score, op.fallback)))), [l[e].id])
  {
    var l := p.Locks(op.kind);
    var i := FirstIndex(l, Unlockable(op.now));
    assert i == e;
  }

  lemma NothingLocked(p: Lists, kind: LockKind, now: nat)
    requires p.Locks(kind) == []
    ensures Apply(p, UnlockAt(kind, now)) == (p, [])
  {
  }

  method Contains(l: EntryList, id: string) returns (found: bool)
    ensures found <==> Has(l, id)
  {
    for i := 0 to |l|
      invariant forall j | 0 <= j < i :: l[j].id != id
    {
      if l[i].id == id {
        return true;
      }
    }
    return false;
  }

  function Bare(messages: seq<QueuedMsg>): (r: seq<Msg>)
    ensures |r| == |messages|
  {
    seq(|messages|, i requires 0 <= i < |messages| => Msg(messages[i].id, messages[i].score))
  }

  /** The unlock rule of both lock pools: the fallback score is now for Ack locks and MIN for Nack locks. */
  function UnlockAt(kind: LockKind, now: nat): Op {
    Unlock(kind, Ms(now) as real, if kind == LockAck then Ms(now) as real else MIN)
  }

  /** What an unlock of a kind does at `now`: the ids were locked by that kind until a time that has
      passed, and become active with the score of the lock. A lock without a score (-1) opens with the
      present time after an Ack and with 0 after a Nack. */
  ghost predicate Opened(t: Table, kind: LockKind, now: nat, ids: seq<string>, t': Table) {
    && (forall id | id in ids :: id in t && t[id].Locked? && t[id].kind == kind && t[id].until <= Ms(now) as real)
    && t' == t + map id | id in ids :: Active(OpenedScore(t[id].score, kind, now))
  }

  function OpenedScore(given: real, kind: LockKind, now: nat): (score: real)
    ensures given != -1.0 ==> score == given
    ensures given == -1.0 && kind == LockAck ==> score == Ms(now) as real
    ensures given == -1.0 && kind == LockNack ==> score == 0.0
  {
    if given != -1.0 then given else if kind == LockAck then Ms(now) as real else 0.0
  }

  lemma UnlockOpens(t: Table, kind: LockKind, now: nat, ids: seq<string>, t': Table)
    requires Step(t, UnlockAt(kind, now), ids, t')
    ensures Opened(t, kind, now, ids, t')
  {
    forall id | id in ids ensures id in t && t[id].Locked? && t[id].kind == kind && t[id].until <= Ms(now) as real {
      assert DueToUnlock(t, kind, Ms(now) as real, id);
    }
  }

  /** The pull loop: examined entries leave the active list, in-range ones start processing. */
  method TakeFromFront(active: EntryList, processing: EntryList, n: int, min: Option<real>, max: Option<real>,
                       deadline: real)
    returns (rest: EntryList, processing': EntryList, ids: seq<string>, filteredOut: seq<Entry>)
    ensures var k := Examined(n, |active|);
            && rest == active[k..]
            && ids == Ids(Select(active[..k], min, max, true))
            && filteredOut == Select(active[..k], min, max, false)
            && processing' == InsertAll(processing, Restamp(Select(active[..k], min, max, true), deadline))
  {
    hide PutBefore;
    rest, processing', ids, filteredOut := active, processing, [], [];
    var i := 0;
    while i < n && i < |active| && |rest| != 0
      invariant 0 <= i <= |active| && (i <= n || i == 0)
      invariant rest == active[i..]
      invariant filteredOut == Select(active[..i], min, max, false)
      invariant ids == Ids(Select(active[..i], min, max, true))
      invariant processing' == InsertAll(processing, Restamp(Select(active[..i], min, max, true), deadline))
    {
      var entry := rest[0];
      var tail, _ := RemoveFrom(rest, entry.id);
      rest := tail;
      SelectNext(active, i + 1, min, max, true);
      SelectNext(active, i + 1, min, max, false);
      if !InRange(entry.score, min, max) {
        filteredOut := filteredOut + [entry];
      } else {
        RestampSnoc(Select(active[..i], min, max, true), entry, deadline, processing);
        processing' := InsertInto(processing', Entry(entry.id, deadline, 0.0));
        ids := ids + [entry.id];
      }
      i := i + 1;
    }
  }

  method InsertEach(l: EntryList, entries: seq<Entry>) returns (r: EntryList)
    ensures r == InsertAll(l, entries)
  {
    hide PutBefore;
    r := l;
    for j := 0 to |entries|
      invariant r == InsertAll(l, entries[..j])
    {
      r := InsertInto(r, entries[j]);
      assert entries[..j + 1][..j] == entries[..j];
    }
    assert entries[..|entries|] == entries;
  }

  /** The processing deadline: seconds plus a number of milliseconds, as the source adds them. */
  function MemoryDeadline(now: nat, ackDeadlineMs: int): real {
    (Sec(now) + if ackDeadlineMs == 0 then DEFAULT_TIMEOUT_MS else ackDeadlineMs) as real
  }

  lemma RestampSnoc(taken: seq<Entry>, e: Entry, deadline: real, processing: EntryList)
    ensures Ids(taken + [e]) == Ids(taken) + [e.id]
    ensures InsertAll(processing, Restamp(taken + [e], deadline))
            == InsertEntry(InsertAll(processing, Restamp(taken, deadline)), Entry(e.id, deadline, 0.0))
  {
    var r := Restamp(taken + [e], deadline);
    assert r[..|taken|] == Restamp(taken, deadline);
  }

  function Size(p: Lists): int {
    |p.active| + |p.processing| + |p.lockAck| + |p.lockNack|
  }

  lemma {:induction false} SizeOfContent(l: EntryList)
    requires DistinctIds(l)
    ensures |Content(l)| == |l|
  {
    if l == [] {
    } else {
      SizeOfContent(l[1..]);
      ContentIsMembership(l[1..], l[0].id);
    }
  }

  lemma FourSets(a: set<string>, b: set<string>, c: set<string>, d: set<string>)
    requires a !! b && (a + b) !! c && (a + b + c) !! d
    ensures |a + b + c + d| == |a| + |b| + |c| + |d|
  {
  }

  /** In a valid cache every entry is a cached id of its own. */
  lemma SizeOfTable(p: Lists)
    requires Inv(p)
    ensures |Abs(p)| == Size(p)
  {
    SizeOfContent(p.active);
    SizeOfContent(p.processing);
    SizeOfContent(p.lockAck);
    SizeOfContent(p.lockNack);
    var m := MapsOf(p);
    assert m.active.Keys == Content(p.active).Keys && m.processing.Keys == Content(p.processing).Keys;
    assert m.lockAck.Keys == Content(p.lockAck).Keys && m.lockNack.Keys == Content(p.lockNack).Keys;
    SizeOfMaps(m);
  }

  lemma DisjointKeys(m: PoolMaps.Maps)
    requires m.Disjoint()
    ensures m.active.Keys !! m.processing.Keys
    ensures (m.active.Keys + m.processing.Keys) !! m.lockAck.Keys
    ensures (m.active.Keys + m.processing.Keys + m.lockAck.Keys) !! m.lockNack.Keys
  {
    forall id
      ensures id in m.active.Keys ==> id !in m.processing.Keys
      ensures id in m.active.Keys + m.processing.Keys ==> id !in m.lockAck.Keys
      ensures id in m.active.Keys + m.processing.Keys + m.lockAck.Keys ==> id !in m.lockNack.Keys
    {
      assert m.InOnePool(id);
    }
  }

  lemma SizeOfMaps(m: PoolMaps.Maps)
    requires m.Disjoint()
    ensures |m.Table()| == |m.active.Keys| + |m.processing.Keys| + |m.lockAck.Keys| + |m.lockNack.Keys|
  {
    DisjointKeys(m);
    FourSets(m.active.Keys, m.processing.Keys, m.lockAck.Keys, m.lockNack.Keys);
    assert m.Table().Keys == m.Ids();
  }

  lemma {:induction false} RemoveIdAbsent(l: EntryList, id: string)
    requires !Has(l, id)
    ensures RemoveId(l, id) == l
  {
    if l == [] {
    } else {
      RemoveIdAbsent(l[1..], id);
    }
  }
}
