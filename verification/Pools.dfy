/** The abstract message-pool machine of one queue.

    A table maps every cached message id to its single location. `Op` is the cache
    interface; `Step` says which replies and new tables an operation may produce.
    The in-memory lists and the Redis scripts both refine this machine. */
module Pools {
  import opened Score

  datatype LockKind = LockAck | LockNack

  datatype Loc =
    | Active(score: real)
    | Processing(deadline: real)
    | Locked(kind: LockKind, until: real, score: real)

  type Table = map<string, Loc>

  datatype Msg = Msg(id: string, score: real)

  /** A message as the cache layer receives it. */
  datatype QueuedMsg = QueuedMsg(queue: string, id: string, score: real)

  datatype Op =
    | Insert(messages: seq<Msg>)
    | Pull(n: int, min: Option<real>, max: Option<real>, deadline: real)
    | MakeAvailable(id: string, score: real)
    | Lock(id: string, kind: LockKind, until: real, score: real)
    | Unlock(kind: LockKind, now: real, fallback: real)
    | Timeout(now: real)
    | Remove(ids: seq<string>)
    | Flush

  function SetOf(ids: seq<string>): set<string> {
    set id | id in ids
  }

  ghost predicate NoRepeats(ids: seq<string>) {
    forall i, j | 0 <= i < j < |ids| :: ids[i] != ids[j]
  }

  /** The score each id of a batch ends with: a later entry overrides an earlier one. */
  function Latest(messages: seq<Msg>): map<string, real> {
    if messages == [] then map[]
    else
      var last := messages[|messages| - 1];
      Latest(messages[..|messages| - 1])[last.id := last.score]
  }

  /** The part of a batch that goes to one queue, in order. */
  function Part(messages: seq<QueuedMsg>, queue: string): seq<Msg> {
    if messages == [] then []
    else
      var n := |messages| - 1;
      Part(messages[..n], queue) + if messages[n].queue == queue then [Msg(messages[n].id, messages[n].score)] else []
  }

  lemma PartSnoc(messages: seq<QueuedMsg>, queue: string)
    requires messages != []
    ensures var n := |messages| - 1;
            Part(messages, queue) == (if messages[n].queue == queue
                                      then Part(messages[..n], queue) + [Msg(messages[n].id, messages[n].score)]
                                      else Part(messages[..n], queue))
  {
  }

  lemma LatestSnoc(messages: seq<Msg>, m: Msg)
    ensures Latest(messages + [m]) == Latest(messages)[m.id := m.score]
  {
    assert (messages + [m])[..|messages|] == messages;
  }

  /** Every message of a batch is in the part of its queue. */
  lemma {:induction false} PartHolds(messages: seq<QueuedMsg>, i: nat)
    requires i < |messages|
    ensures messages[i].id in Latest(Part(messages, messages[i].queue))
  {
    var n, queue := |messages| - 1, messages[i].queue;
    PartSnoc(messages, queue);
    LatestSnoc(Part(messages[..n], queue), Msg(messages[n].id, messages[n].score));
    if i < n {
      PartHolds(messages[..n], i);
    }
  }

  /** Every id of a part comes from a message of the batch, with that message's score. */
  lemma {:induction false} PartComesFrom(messages: seq<QueuedMsg>, queue: string, id: string) returns (i: nat)
    requires id in Latest(Part(messages, queue))
    ensures i < |messages| && messages[i] == QueuedMsg(queue, id, Latest(Part(messages, queue))[id])
  {
    var n := |messages| - 1;
    PartSnoc(messages, queue);
    LatestSnoc(Part(messages[..n], queue), Msg(messages[n].id, messages[n].score));
    if messages[n].queue == queue && messages[n].id == id {
      i := n;
    } else {
      i := PartComesFrom(messages[..n], queue, id);
    }
  }

  /** No later message of the batch has the name of message `i`. */
  predicate IsLast(messages: seq<QueuedMsg>, i: nat) {
    && i < |messages|
    && forall j | i < j < |messages| :: messages[j].queue != messages[i].queue || messages[j].id != messages[i].id
  }

  /** The last message of a name decides its score. */
  lemma {:induction false} LastDecides(messages: seq<QueuedMsg>, i: nat)
    requires IsLast(messages, i)
    ensures var latest := Latest(Part(messages, messages[i].queue));
            messages[i].id in latest && latest[messages[i].id] == messages[i].score
  {
    hide Part;
    hide Latest;
    var n, queue := |messages| - 1, messages[i].queue;
    PartSnoc(messages, queue);
    LatestSnoc(Part(messages[..n], queue), Msg(messages[n].id, messages[n].score));
    if i == n {
    } else {
      assert IsLast(messages[..n], i);
      LastDecides(messages[..n], i);
    }
  }

  function Resolve(score: real, fallback: real): real {
    if score == UNDEFINED then fallback else score
  }

  ghost predicate AreActive(t: Table, ids: seq<string>) {
    forall id | id in ids :: id in t && t[id].Active?
  }

  /** Pull's priority rule: ascending scores, and nothing in range that scores lower stays behind. */
  ghost predicate LowestFirst(t: Table, op: Op, ids: seq<string>)
    requires op.Pull? && AreActive(t, ids)
  {
    && (forall i, j | 0 <= i < j < |ids| :: t[ids[i]].score <= t[ids[j]].score)
    && (forall id, other | id in ids && other in t && other !in ids ::
          t[other].Active? && InRange(t[other].score, op.min, op.max) ==> t[id].score <= t[other].score)
  }

  /** Without a minimum score, a pull that comes back with fewer than it asked for leaves nothing
      in range behind. */
  ghost predicate Exhausts(t: Table, op: Op, ids: seq<string>)
    requires op.Pull?
  {
    op.n >= 1 && op.min.None? && |ids| < op.n ==>
      forall other | other in t && t[other].Active? && InRange(t[other].score, op.min, op.max) :: other in ids
  }

  ghost predicate PullStep(t: Table, op: Op, ids: seq<string>, t': Table)
    requires op.Pull?
  {
    && NoRepeats(ids)
    && (op.n >= 1 ==> |ids| <= op.n)
    && AreActive(t, ids)
    && (forall id | id in ids :: InRange(t[id].score, op.min, op.max))
    && LowestFirst(t, op, ids)
    && Exhausts(t, op, ids)
    && t' == t + map id | id in ids :: Processing(op.deadline)
  }

  ghost predicate DueToUnlock(t: Table, kind: LockKind, now: real, id: string) {
    id in t && t[id].Locked? && t[id].kind == kind && t[id].until <= now
  }

  ghost predicate DueToTimeOut(t: Table, now: real, id: string) {
    id in t && t[id].Processing? && t[id].deadline <= now
  }

  ghost predicate Step(t: Table, op: Op, ids: seq<string>, t': Table) {
    match op
    case Insert(messages) =>
      var latest := Latest(messages);
      && (forall id :: id in ids <==> id in latest && id !in t)
      && t' == t + map id | id in latest && id !in t :: Active(latest[id])
    case Pull(_, _, _, _) =>
      PullStep(t, op, ids, t')
    case MakeAvailable(id, score) =>
      if id in t && t[id].Processing? then
        ids == [id] && t' == t[id := Active(score)]
      else
        ids == [] && t' == t
    case Lock(id, kind, until, score) =>
      if id in t && t[id].Processing? then
        ids == [id] && t' == t[id := Locked(kind, until, score)]
      else
        ids == [] && t' == t
    case Unlock(kind, now, fallback) =>
      && NoRepeats(ids)
      && (forall id | id in ids :: DueToUnlock(t, kind, now, id))
      && t' == t + map id | id in ids :: Active(Resolve(t[id].score, fallback))
    case Timeout(now) =>
      && NoRepeats(ids)
      && (forall id | id in ids :: DueToTimeOut(t, now, id))
      && t' == t + map id | id in ids :: Active(MIN)
    case Remove(removed) =>
      ids == [] && t' == t - SetOf(removed)
    case Flush =>
      ids == [] && t' == map[]
  }

  /** Only Insert, Remove and Flush change which ids are cached. */
  lemma StepKeepsIds(t: Table, op: Op, ids: seq<string>, t': Table)
    requires Step(t, op, ids, t')
    requires !op.Insert? && !op.Remove? && !op.Flush?
    ensures t'.Keys == t.Keys
  {
    forall id | id in ids ensures id in t {
      match op
      case Pull(_, _, _, _) =>
      case MakeAvailable(_, _) =>
      case Lock(_, _, _, _) =>
      case Unlock(kind, now, _) => assert DueToUnlock(t, kind, now, id);
      case Timeout(now) => assert DueToTimeOut(t, now, id);
    }
  }
}

/** Safety over whole runs of the abstract machine: any sequence of cache operations,
    issued by any number of clients, starting from an empty cache. */
module PoolRuns {
  import opened Score
  import opened Pools

  datatype Run = Run(tables: seq<Table>, ops: seq<Op>, replies: seq<seq<string>>) {

    ghost predicate Valid() {
      && |tables| == |ops| + 1 == |replies| + 1
      && tables[0] == map[]
      && forall i | 0 <= i < |ops| :: Step(tables[i], ops[i], replies[i], tables[i + 1])
    }

    /** Operation `m` reports that it handled `id`. */
    predicate Handles(m: int, id: string) {
      0 <= m < |ops| && m < |replies| && id in replies[m]
    }

    /** Operation `m` throws `id` out of every pool. */
    predicate Drops(m: int, id: string) {
      0 <= m < |ops| && (ops[m].Flush? || (ops[m].Remove? && id in ops[m].ids))
    }

    /** `id` sits at `loc` just before operation `i`. */
    predicate At(i: int, id: string, loc: Loc) {
      0 <= i < |tables| && id in tables[i] && tables[i][id] == loc
    }

    predicate ActiveAt(i: int, id: string) {
      0 <= i < |tables| && id in tables[i] && tables[i][id].Active?
    }

    predicate LockedAt(i: int, id: string) {
      0 <= i < |tables| && id in tables[i] && tables[i][id].Locked?
    }

    predicate AbsentAt(i: int, id: string) {
      0 <= i < |tables| && id !in tables[i]
    }
  }

  /** Which operations bring an id into a location it was not in. */
  lemma HowLocationsArise(t: Table, op: Op, ids: seq<string>, t': Table, id: string)
    requires Step(t, op, ids, t')
    ensures id in t' && t'[id].Active? && !(id in t && t[id].Active?) ==>
              && id in ids
              && (op.MakeAvailable? || op.Timeout? || (op.Unlock? && id in t && t[id].Locked?)
                  || (op.Insert? && id !in t))
    ensures id in t' && t'[id].Processing? && !(id in t && t[id] == t'[id]) ==>
              op.Pull? && id in ids && t'[id] == Processing(op.deadline)
    ensures id in t' && t'[id].Locked? && !(id in t && t[id] == t'[id]) ==>
              op.Lock? && id in ids && op.id == id && t'[id] == Locked(op.kind, op.until, op.score)
    ensures id in t && id !in t' ==> op.Flush? || (op.Remove? && id in op.ids)
  {
    match op
    case Unlock(kind, now, _) => if id in ids { assert DueToUnlock(t, kind, now, id); }
    case Timeout(now) => if id in ids { assert DueToTimeOut(t, now, id); }
    case _ =>
  }

  /** Which operations take an id out of a lock pool. */
  lemma HowLocksEnd(t: Table, op: Op, ids: seq<string>, t': Table, id: string)
    requires Step(t, op, ids, t')
    requires id in t && t[id].Locked? && !(id in t' && t'[id] == t[id])
    ensures (op.Unlock? && id in ids) || op.Flush? || (op.Remove? && id in op.ids)
  {
    assert op.Timeout? && id in ids ==> DueToTimeOut(t, op.now, id);
  }

  lemma {:induction false} Crossing(holds: seq<bool>, a: nat, b: nat) returns (m: nat)
    requires a < b < |holds| && !holds[a] && holds[b]
    ensures a <= m < b && !holds[m] && holds[m + 1]
    decreases b - a
  {
    if holds[b - 1] {
      m := Crossing(holds, a, b - 1);
    } else {
      m := b - 1;
    }
  }

  /** Operation `m` lets `id` be delivered again after operation `i` delivered it. */
  ghost predicate Redelivers(run: Run, i: int, m: int, id: string) {
    && run.Handles(m, id)
    && i < m
    && (|| run.ops[m].MakeAvailable?
        || run.ops[m].Timeout?
        || (run.ops[m].Unlock? && exists l :: i < l < m && run.Handles(l, id) && run.ops[l].Lock?)
        || (run.ops[m].Insert? && exists l :: i < l < m && run.Drops(l, id)))
  }

  lemma LockedInBetween(run: Run, a: nat, m: nat, id: string)
    requires run.Valid() && a < m < |run.tables| && !run.LockedAt(a, id) && run.LockedAt(m, id)
    ensures exists l :: a <= l < m && run.Handles(l, id) && run.ops[l].Lock?
  {
    var l := Crossing(seq(|run.tables|, x => run.LockedAt(x, id)), a, m);
    HowLocationsArise(run.tables[l], run.ops[l], run.replies[l], run.tables[l + 1], id);
    assert run.Handles(l, id);
  }

  lemma DroppedInBetween(run: Run, a: nat, m: nat, id: string)
    requires run.Valid() && a < m < |run.tables| && !run.AbsentAt(a, id) && run.AbsentAt(m, id)
    ensures exists l :: a <= l < m && run.Drops(l, id)
  {
    var l := Crossing(seq(|run.tables|, x => run.AbsentAt(x, id)), a, m);
    HowLocationsArise(run.tables[l], run.ops[l], run.replies[l], run.tables[l + 1], id);
    assert run.Drops(l, id);
  }

  lemma PullTakesActive(run: Run, i: nat, id: string)
    requires run.Valid() && run.Handles(i, id) && run.ops[i].Pull?
    ensures run.ActiveAt(i, id) && run.At(i + 1, id, Processing(run.ops[i].deadline))
  {
    assert Step(run.tables[i], run.ops[i], run.replies[i], run.tables[i + 1]);
  }

  lemma ActiveAgain(run: Run, i: nat, j: nat, id: string) returns (m: nat)
    requires run.Valid() && i + 1 < j < |run.tables|
    requires id in run.tables[i + 1] && run.tables[i + 1][id].Processing? && run.ActiveAt(j, id)
    ensures i < m < j && run.Handles(m, id)
    ensures || run.ops[m].MakeAvailable? || run.ops[m].Timeout?
            || (run.ops[m].Unlock? && i + 1 < m && run.LockedAt(m, id))
            || (run.ops[m].Insert? && i + 1 < m && run.AbsentAt(m, id))
  {
    m := Crossing(seq(|run.tables|, x => run.ActiveAt(x, id)), i + 1, j);
    HowLocationsArise(run.tables[m], run.ops[m], run.replies[m], run.tables[m + 1], id);
  }

  /** Exclusive delivery: between two pulls that return the same id, the id was made
      available, timed out, locked and then unlocked, or dropped and then inserted again. */
  lemma ExclusiveDelivery(run: Run, i: nat, j: nat, id: string)
    requires run.Valid()
    requires i < j && run.Handles(i, id) && run.ops[i].Pull? && run.Handles(j, id) && run.ops[j].Pull?
    ensures exists m :: m < j && Redelivers(run, i, m, id)
  {
    PullTakesActive(run, i, id);
    PullTakesActive(run, j, id);
    var m := ActiveAgain(run, i, j, id);
    if run.ops[m].Unlock? {
      LockedInBetween(run, i + 1, m, id);
    } else if run.ops[m].Insert? {
      DroppedInBetween(run, i + 1, m, id);
    }
    assert Redelivers(run, i, m, id);
  }

  /** An id that is processing or locked was put there by one earlier operation and has not moved since. */
  lemma {:induction false} Origin(run: Run, j: nat, id: string) returns (i: nat)
    requires run.Valid() && j < |run.tables|
    requires id in run.tables[j] && !run.tables[j][id].Active?
    ensures i < j && run.Handles(i, id)
    ensures forall m | i < m <= j :: run.At(m, id, run.tables[j][id])
    ensures run.tables[j][id].Processing? ==>
              run.ops[i].Pull? && run.ops[i].deadline == run.tables[j][id].deadline
    ensures run.tables[j][id].Locked? ==>
              run.ops[i] == Lock(id, run.tables[j][id].kind, run.tables[j][id].until, run.tables[j][id].score)
  {
    hide Step;
    assert j > 0;
    assert Step(run.tables[j - 1], run.ops[j - 1], run.replies[j - 1], run.tables[j]);
    HowLocationsArise(run.tables[j - 1], run.ops[j - 1], run.replies[j - 1], run.tables[j], id);
    if run.At(j - 1, id, run.tables[j][id]) {
      i := Origin(run, j - 1, id);
    } else {
      i := j - 1;
    }
  }

  /** The pull `i` took the id that operation `j` times out: its deadline has passed, and the id
      was processing under that deadline all the time in between. */
  ghost predicate TimesOut(run: Run, i: int, j: int, id: string) {
    && 0 <= i < j < |run.ops| && j + 1 < |run.tables|
    && run.ops[i].Pull? && run.Handles(i, id)
    && run.ops[j].Timeout? && run.ops[i].deadline <= run.ops[j].now
    && (forall m | i < m <= j :: run.At(m, id, Processing(run.ops[i].deadline)))
    && run.At(j + 1, id, Active(MIN))
  }

  /** A message is never timed out before the deadline of the pull that took it. */
  lemma TimeoutNeverEarly(run: Run, j: nat, id: string)
    requires run.Valid() && run.Handles(j, id) && run.ops[j].Timeout?
    ensures exists i: nat :: TimesOut(run, i, j, id)
  {
    assert Step(run.tables[j], run.ops[j], run.replies[j], run.tables[j + 1]);
    assert DueToTimeOut(run.tables[j], run.ops[j].now, id);
    var i := Origin(run, j, id);
    assert TimesOut(run, i, j, id);
  }

  /** The lock taken by operation `i` is the one operation `j` opens: it is due, nothing in
      between changed it, and the message becomes active with the score given at lock time,
      or with the fallback when that score was undefined. */
  ghost predicate Opens(run: Run, i: int, j: int, id: string) {
    && 0 <= i < j < |run.ops| && j + 1 < |run.tables|
    && run.ops[i].Lock? && run.ops[i].id == id && run.Handles(i, id)
    && run.ops[j].Unlock? && run.ops[j].kind == run.ops[i].kind
    && run.ops[i].until <= run.ops[j].now
    && (forall m | i < m <= j :: run.At(m, id, Locked(run.ops[i].kind, run.ops[i].until, run.ops[i].score)))
    && run.At(j + 1, id, Active(Resolve(run.ops[i].score, run.ops[j].fallback)))
  }

  lemma UnlockRestoresScore(run: Run, j: nat, id: string)
    requires run.Valid() && run.Handles(j, id) && run.ops[j].Unlock?
    ensures exists i: nat :: Opens(run, i, j, id)
  {
    assert Step(run.tables[j], run.ops[j], run.replies[j], run.tables[j + 1]);
    assert DueToUnlock(run.tables[j], run.ops[j].kind, run.ops[j].now, id);
    var i := Origin(run, j, id);
    assert Opens(run, i, j, id);
  }

  /** A lock only ends by an unlock of that id or by dropping the id. */
  lemma {:induction false} LockHolds(run: Run, i: nat, j: nat, id: string)
    requires run.Valid() && i < j <= |run.ops|
    requires run.ops[i].Lock? && run.Handles(i, id)
    requires forall m | i < m < j :: !run.Drops(m, id) && !(run.ops[m].Unlock? && run.Handles(m, id))
    ensures run.At(j, id, Locked(run.ops[i].kind, run.ops[i].until, run.ops[i].score))
    decreases j
  {
    assert Step(run.tables[j - 1], run.ops[j - 1], run.replies[j - 1], run.tables[j]);
    if i + 1 < j {
      LockHolds(run, i, j - 1, id);
      if run.tables[j] != run.tables[j - 1] && !run.At(j, id, run.tables[j - 1][id]) {
        HowLocksEnd(run.tables[j - 1], run.ops[j - 1], run.replies[j - 1], run.tables[j], id);
      }
    }
  }

  // ---------- repeated housekeeping calls ----------

  ghost predicate IsDue(t: Table, op: Op, id: string)
    requires op.Timeout? || op.Unlock?
  {
    if op.Timeout? then DueToTimeOut(t, op.now, id) else DueToUnlock(t, op.kind, op.now, id)
  }

  /** The ids a Timeout or an Unlock may move. */
  ghost function Due(t: Table, op: Op): set<string>
    requires op.Timeout? || op.Unlock?
  {
    set id | id in t && IsDue(t, op, id)
  }

  lemma {:induction false} SizeOfIds(ids: seq<string>)
    requires NoRepeats(ids)
    ensures |SetOf(ids)| == |ids|
  {
    if ids == [] {
    } else {
      var n := |ids| - 1;
      SizeOfIds(ids[..n]);
      assert SetOf(ids) == SetOf(ids[..n]) + {ids[n]};
    }
  }

  lemma DuePoint(t: Table, op: Op, ids: seq<string>, t': Table, id: string)
    requires (op.Timeout? || op.Unlock?) && Step(t, op, ids, t')
    ensures IsDue(t', op, id) <==> IsDue(t, op, id) && id !in ids
    ensures id in ids ==> IsDue(t, op, id)
  {
  }

  lemma DueShrinks(t: Table, op: Op, ids: seq<string>, t': Table)
    requires (op.Timeout? || op.Unlock?) && Step(t, op, ids, t')
    ensures Due(t', op) == Due(t, op) - SetOf(ids)
    ensures |Due(t', op)| == |Due(t, op)| - |ids|
  {
    SizeOfIds(ids);
    hide Step;
    hide NoRepeats;
    forall id
      ensures IsDue(t', op, id) <==> IsDue(t, op, id) && id !in ids
      ensures id in ids ==> IsDue(t, op, id)
    {
      DuePoint(t, op, ids, t', id);
    }
    hide IsDue;
    hide DueToTimeOut;
    hide DueToUnlock;
    assert forall id :: IsDue(t, op, id) ==> id in t;
    assert SetOf(ids) <= Due(t, op);
    assert Due(t', op) == Due(t, op) - SetOf(ids);
  }

  /** The same housekeeping task, no earlier than before. */
  predicate SameTask(op: Op, later: Op) {
    (op.Timeout? && later.Timeout? && op.now <= later.now)
    || (op.Unlock? && later.Unlock? && op.kind == later.kind && op.now <= later.now)
  }

  /** One housekeeping task called again and again, by a clock that does not go back. */
  predicate Task(ops: seq<Op>) {
    && (forall i | 0 <= i < |ops| :: ops[i].Timeout? || ops[i].Unlock?)
    && (forall i, j | 0 <= i <= j < |ops| :: SameTask(ops[i], ops[j]))
  }

  /** What a call moves is gone from the due set of any later reading. */
  lemma DueShrinksLater(t: Table, op: Op, ids: seq<string>, t': Table, later: Op)
    requires SameTask(op, later) && Step(t, op, ids, t')
    ensures Due(t', later) == Due(t, later) - SetOf(ids) && SetOf(ids) <= Due(t, later)
    ensures |Due(t', later)| == |Due(t, later)| - |ids|
    ensures Due(t, op) <= Due(t, later)
  {
    SizeOfIds(ids);
    forall id
      ensures IsDue(t', later, id) <==> IsDue(t, later, id) && id !in ids
      ensures id in ids ==> IsDue(t, later, id)
    {
      LaterPoint(t, op, ids, t', later, id);
    }
    hide Step;
    hide NoRepeats;
    assert forall id :: IsDue(t, later, id) ==> id in t;
    assert forall id :: IsDue(t, op, id) ==> IsDue(t, later, id);
    hide IsDue;
    assert SetOf(ids) <= Due(t, later);
    assert Due(t', later) == Due(t, later) - SetOf(ids);
  }

  /** One more call of a task that moves up to `batch` due ids: either that many move, or nothing
      that is due at the first reading is left. */
  lemma OneMoreCall(t: Table, op: Op, ids: seq<string>, t': Table, first: Op, batch: nat)
    requires SameTask(first, op) && Step(t, op, ids, t') && |ids| == Min(batch, |Due(t, op)|)
    ensures Due(t, first) == {} ==> Due(t', first) == {}
    ensures Due(t', first) == {} || |ids| == batch
    ensures forall last | SameTask(op, last) :: |Due(t', last)| == |Due(t, last)| - |ids|
  {
    DueShrinksLater(t, op, ids, t', op);
    EarlierStays(t, op, ids, t', first);
    EarlierDue(t', first, op);
    forall last | SameTask(op, last) ensures |Due(t', last)| == |Due(t, last)| - |ids| {
      DueShrinksLater(t, op, ids, t', last);
    }
    hide Step;
    hide Due;
    if |ids| < batch {
      assert |Due(t', op)| == 0;
    }
  }

  lemma EarlierDue(t: Table, op: Op, later: Op)
    requires SameTask(op, later)
    ensures Due(t, op) <= Due(t, later)
  {
  }

  /** A later call makes nothing due that was not. */
  lemma EarlierStays(t: Table, op: Op, ids: seq<string>, t': Table, early: Op)
    requires SameTask(early, op) && Step(t, op, ids, t')
    ensures Due(t', early) <= Due(t, early)
  {
  }

  lemma LaterPoint(t: Table, op: Op, ids: seq<string>, t': Table, later: Op, id: string)
    requires SameTask(op, later) && Step(t, op, ids, t')
    ensures IsDue(t', later, id) <==> IsDue(t, later, id) && id !in ids
    ensures id in ids ==> IsDue(t, later, id)
  {
  }
}
