/** What each Lua script does to the six sorted sets of one queue, and the proof that
    every script is a step of the abstract machine. */
module RedisPools {
  import opened Score
  import opened Pools
  import opened PoolMaps
  import opened RankedSets

  datatype ZPools = ZPools(active: ZSet, processing: ZSet, lockAck: ZSet, lockNack: ZSet, ackScore: ZSet,
                           nackScore: ZSet) {
    function Locks(kind: LockKind): ZSet {
      if kind == LockAck then lockAck else lockNack
    }

    function LockScores(kind: LockKind): ZSet {
      if kind == LockAck then ackScore else nackScore
    }

    function WithLocks(kind: LockKind, locks: ZSet, scores: ZSet): ZPools {
      if kind == LockAck then this.(lockAck := locks, ackScore := scores)
      else this.(lockNack := locks, nackScore := scores)
    }

    /** The four sets the add script looks at. */
    predicate Exists(id: string) {
      id in active || id in lockNack || id in lockAck || id in processing
    }
  }

  const EMPTY := ZPools(map[], map[], map[], map[], map[], map[])

  const HOUSEKEEPING_BATCH: nat := 1000

  // ---------- abstraction ----------

  function Holds(locks: ZSet, scores: ZSet): map<string, Hold> {
    map id | id in locks :: Hold(locks[id], if id in scores then scores[id] else UNDEFINED)
  }

  function MapsOf(z: ZPools): Maps {
    Maps(z.active, z.processing, Holds(z.lockAck, z.ackScore), Holds(z.lockNack, z.nackScore))
  }

  function Abs(z: ZPools): Table {
    MapsOf(z).Table()
  }

  /** Only locked ids have a saved score, and a saved score is never the undefined one. */
  predicate SavedFor(locks: ZSet, scores: ZSet) {
    forall id | id in scores :: id in locks && scores[id] != UNDEFINED
  }

  /** The pool invariant: the four main sets are disjoint and saved scores belong to locked ids. */
  ghost predicate Inv(z: ZPools) {
    MapsOf(z).Disjoint() && SavedFor(z.lockAck, z.ackScore) && SavedFor(z.lockNack, z.nackScore)
  }

  // ---------- the scripts ----------

  /** ZADD of one member: the number of members it creates. */
  function Created(z: ZSet, id: string): int {
    if id in z then 0 else 1
  }

  function Stamp(ids: seq<string>, score: real): ZSet {
    map id | id in ids :: score
  }

  /** removeElementScript. */
  function RunRemove(z: ZPools, ids: seq<string>): ZPools {
    var gone := SetOf(ids);
    ZPools(z.active - gone, z.processing - gone, z.lockAck - gone, z.lockNack - gone, z.ackScore - gone,
      z.nackScore - gone)
  }

  function Removed(z: ZPools, ids: seq<string>): int {
    var gone := SetOf(ids);
    |z.active.Keys * gone| + |z.processing.Keys * gone| + |z.lockAck.Keys * gone| + |z.lockNack.Keys * gone|
    + |z.ackScore.Keys * gone| + |z.nackScore.Keys * gone|
  }

  /** moveElementScript, with its ZADD reply. */
  function RunMove(z: ZPools, id: string, score: real): (ZPools, int) {
    if id in z.processing then
      (z.(processing := z.processing - {id}, active := z.active[id := score]), Created(z.active, id))
    else
      (z, 0)
  }

  /** lockElementScript, with the reply of its last ZADD. */
  function RunLock(z: ZPools, id: string, kind: LockKind, until: real, score: real): (ZPools, int) {
    if id in z.processing then
      var locks, scores := z.Locks(kind), z.LockScores(kind);
      var left := z.(processing := z.processing - {id});
      if score == UNDEFINED then
        (left.WithLocks(kind, locks[id := until], scores), Created(locks, id))
      else
        (left.WithLocks(kind, locks[id := until], scores[id := score]), Created(scores, id))
    else
      (z, 0)
  }

  function Fresh(z: ZPools, messages: seq<Msg>): seq<Msg> {
    if messages == [] then []
    else
      var n := |messages| - 1;
      Fresh(z, messages[..n]) + if z.Exists(messages[n].id) then [] else [messages[n]]
  }

  function Names(messages: seq<Msg>): seq<string> {
    seq(|messages|, i requires 0 <= i < |messages| => messages[i].id)
  }

  /** addElementsScript. */
  function RunAdd(z: ZPools, messages: seq<Msg>): (ZPools, seq<string>) {
    var toInsert := Fresh(z, messages);
    (z.(active := z.active + Latest(toInsert)), Names(toInsert))
  }

  /** moveFilteredElementsScript. */
  function RunTimeout(z: ZPools, now: real): (ZPools, seq<string>) {
    var elements := RevRangeByScore(z.processing, now, 0.0, HOUSEKEEPING_BATCH);
    (z.(active := z.active + Stamp(elements, MIN), processing := z.processing - SetOf(elements)), elements)
  }

  function UnlockScores(scores: ZSet, elements: seq<string>, fallback: real): ZSet {
    map id | id in elements :: if id in scores then scores[id] else fallback
  }

  /** unlockElementsScript. */
  function RunUnlock(z: ZPools, kind: LockKind, now: real, fallback: real): (ZPools, seq<string>) {
    var locks, scores := z.Locks(kind), z.LockScores(kind);
    var elements := RevRangeByScore(locks, now, 0.0, HOUSEKEEPING_BATCH);
    (z.(active := z.active + UnlockScores(scores, elements, fallback))
     .WithLocks(kind, locks - SetOf(elements), scores - SetOf(elements)), elements)
  }

  function PullElements(active: ZSet, n: int, min: Option<real>, max: Option<real>): seq<string> {
    if min == None && max == None then RangeTo(active, n - 1) else RangeByScore(active, min, max, n)
  }

  /** pullElementsScript. */
  function RunPull(z: ZPools, n: int, min: Option<real>, max: Option<real>, deadline: real): (ZPools, seq<string>) {
    var elements := PullElements(z.active, n, min, max);
    (z.(active := z.active - SetOf(elements), processing := z.processing + Stamp(elements, deadline)), elements)
  }

  /** A script with an integer reply handled the id when it replied 1. */
  function Handled(r: (ZPools, int), id: string): (ZPools, seq<string>) {
    (r.0, if r.1 == 1 then [id] else [])
  }

  function Apply(z: ZPools, op: Op): (ZPools, seq<string>) {
    match op
    case Insert(messages) => RunAdd(z, messages)
    case Pull(n, min, max, deadline) => RunPull(z, n, min, max, deadline)
    case MakeAvailable(id, score) => Handled(RunMove(z, id, score), id)
    case Lock(id, kind, until, score) => Handled(RunLock(z, id, kind, until, score), id)
    case Unlock(kind, now, fallback) => RunUnlock(z, kind, now, fallback)
    case Timeout(now) => RunTimeout(z, now)
    case Remove(ids) => (RunRemove(z, ids), [])
    case Flush => (EMPTY, [])
  }

  // ---------- refinement, script by script ----------

  lemma {:induction false} FreshMembers(z: ZPools, messages: seq<Msg>)
    ensures forall id :: id in Latest(Fresh(z, messages)) <==> id in Latest(messages) && !z.Exists(id)
    ensures forall id | id in Latest(Fresh(z, messages)) :: Latest(Fresh(z, messages))[id] == Latest(messages)[id]
    ensures forall id :: id in Names(Fresh(z, messages)) <==> id in Latest(Fresh(z, messages))
  {
    if messages == [] {
    } else {
      var n := |messages| - 1;
      FreshMembers(z, messages[..n]);
      var before, after := Fresh(z, messages[..n]), Fresh(z, messages);
      if z.Exists(messages[n].id) {
        assert after == before;
      } else {
        assert after[..|after| - 1] == before;
        assert Names(after) == Names(before) + [messages[n].id];
      }
    }
  }

  lemma AddRefines(z: ZPools, messages: seq<Msg>)
    requires Inv(z)
    ensures var (z', ids) := RunAdd(z, messages);
            Inv(z') && Step(Abs(z), Insert(messages), ids, Abs(z'))
  {
    var m, latest := MapsOf(z), Latest(messages);
    var (z', ids) := RunAdd(z, messages);
    FreshMembers(z, messages);
    assert forall id :: z.Exists(id) <==> id in m.Ids();
    hide Step;
    assert Latest(Fresh(z, messages)) == map id | id in latest && id !in m.Ids() :: latest[id];
    InsertMaps(m, MapsOf(z'), messages, ids);
  }

  /** The script's ZADD reply is 1 exactly when the id was processing. */
  lemma MoveRefines(z: ZPools, id: string, score: real)
    requires Inv(z)
    ensures RunMove(z, id, score).1 == if id in z.processing then 1 else 0
    ensures var (z', ids) := Handled(RunMove(z, id, score), id);
            Inv(z') && Step(Abs(z), MakeAvailable(id, score), ids, Abs(z'))
  {
    assert MapsOf(z).InOnePool(id);
    if id in z.processing {
      MakeAvailableMaps(MapsOf(z), MapsOf(RunMove(z, id, score).0), id, score);
    } else {
      NotProcessing(MapsOf(z), id);
    }
  }

  lemma HoldOne(locks: ZSet, scores: ZSet, id: string, until: real, score: real)
    requires SavedFor(locks, scores) && id !in locks
    ensures var scores' := if score == UNDEFINED then scores else scores[id := score];
            && SavedFor(locks[id := until], scores')
            && Holds(locks[id := until], scores') == Holds(locks, scores)[id := Hold(until, score)]
  {
  }

  /** Its reply is a ZADD count of one of two sets, yet it is 1 exactly when the id was processing. */
  lemma LockRefines(z: ZPools, id: string, kind: LockKind, until: real, score: real)
    requires Inv(z)
    ensures RunLock(z, id, kind, until, score).1 == if id in z.processing then 1 else 0
    ensures var (z', ids) := Handled(RunLock(z, id, kind, until, score), id);
            Inv(z') && Step(Abs(z), Lock(id, kind, until, score), ids, Abs(z'))
  {
    assert MapsOf(z).InOnePool(id);
    if id in z.processing {
      HoldOne(z.Locks(kind), z.LockScores(kind), id, until, score);
      LockMaps(MapsOf(z), MapsOf(RunLock(z, id, kind, until, score).0), id, kind, until, score);
    } else {
      NotProcessing(MapsOf(z), id);
    }
  }

  lemma TimeoutRefines(z: ZPools, now: real)
    requires Inv(z)
    ensures var (z', ids) := RunTimeout(z, now);
            Inv(z') && Step(Abs(z), Timeout(now), ids, Abs(z'))
  {
    var (z', ids) := RunTimeout(z, now);
    RevRangeFacts(z.processing, now, 0.0, HOUSEKEEPING_BATCH);
    forall id | id in ids ensures id in z.processing && z.processing[id] <= now { assert id in SetOf(ids); }
    TimeoutMaps(MapsOf(z), MapsOf(z'), now, ids);
  }

  lemma ReleaseSome(locks: ZSet, scores: ZSet, ids: seq<string>, fallback: real)
    requires SavedFor(locks, scores) && forall id | id in ids :: id in locks
    ensures SavedFor(locks - SetOf(ids), scores - SetOf(ids))
    ensures Holds(locks - SetOf(ids), scores - SetOf(ids)) == Holds(locks, scores) - SetOf(ids)
    ensures UnlockScores(scores, ids, fallback)
            == map id | id in ids :: Resolve(Holds(locks, scores)[id].score, fallback)
  {
  }

  lemma UnlockRefines(z: ZPools, kind: LockKind, now: real, fallback: real)
    requires Inv(z)
    ensures var (z', ids) := RunUnlock(z, kind, now, fallback);
            Inv(z') && Step(Abs(z), Unlock(kind, now, fallback), ids, Abs(z'))
  {
    var (z', ids) := RunUnlock(z, kind, now, fallback);
    RevRangeFacts(z.Locks(kind), now, 0.0, HOUSEKEEPING_BATCH);
    forall id | id in ids ensures id in z.Locks(kind) && z.Locks(kind)[id] <= now { assert id in SetOf(ids); }
    ReleaseSome(z.Locks(kind), z.LockScores(kind), ids, fallback);
    UnlockMaps(MapsOf(z), MapsOf(z'), kind, now, fallback, ids);
  }

  lemma RemoveRefines(z: ZPools, ids: seq<string>)
    requires Inv(z)
    ensures Inv(RunRemove(z, ids)) && Step(Abs(z), Remove(ids), [], Abs(RunRemove(z, ids)))
  {
    HoldsOfRest(z.lockAck, z.ackScore, SetOf(ids));
    HoldsOfRest(z.lockNack, z.nackScore, SetOf(ids));
    RemoveMaps(MapsOf(z), MapsOf(RunRemove(z, ids)), ids);
  }

  lemma HoldsOfRest(locks: ZSet, scores: ZSet, gone: set<string>)
    requires SavedFor(locks, scores)
    ensures SavedFor(locks - gone, scores - gone)
    ensures Holds(locks - gone, scores - gone) == Holds(locks, scores) - gone
  {
  }

  /** Both branches of the pull script answer in-range members of lowest rank; for n >= 1 both
      answer n of them, or all. */
  lemma PullElementsOrdered(active: ZSet, op: Op)
    requires op.Pull?
    ensures op.n >= 1 ==> PullElements(active, op.n, op.min, op.max) == RangeByScore(active, op.min, op.max, op.n)
    ensures PullOrdered(active, op, PullElements(active, op.n, op.min, op.max))
  {
    FastPathIff(active, op.n);
    KeptIsRange(active, op.min, op.max);
    AnswerIsPrefix(active, op);
    hide Keep;
    hide Ranked;
    PrefixOrdered(active, Keep(Ranked(active), active, op.min, op.max), PullElements(active, op.n, op.min, op.max), op);
  }

  lemma AnswerIsPrefix(active: ZSet, op: Op)
    requires op.Pull?
    ensures PullElements(active, op.n, op.min, op.max) <= Keep(Ranked(active), active, op.min, op.max)
    ensures op.n >= 1 ==> |PullElements(active, op.n, op.min, op.max)| <= op.n
    ensures op.n >= 1 && |PullElements(active, op.n, op.min, op.max)| < op.n ==>
              PullElements(active, op.n, op.min, op.max) == Keep(Ranked(active), active, op.min, op.max)
  {
    FastPathIff(active, op.n);
    LimitIsPrefix(Keep(Ranked(active), active, op.min, op.max), op.n);
    RangeToIsPrefix(active, op.n - 1);
    if op.min == None && op.max == None {
      RankedMembers(active);
      KeepAll(Ranked(active), active);
    }
    hide Keep;
    hide Ranked;
    hide RangeTo;
    hide Limit;
  }

  lemma PrefixOrdered(active: ZSet, kept: seq<string>, ids: seq<string>, op: Op)
    requires op.Pull? && Ordered(kept, active) && SetOf(kept) == InScore(active, op.min, op.max)
    requires ids <= kept && (op.n >= 1 ==> |ids| <= op.n && (|ids| < op.n ==> ids == kept))
    ensures PullOrdered(active, op, ids)
  {
    forall other | other in active && InRange(active[other], op.min, op.max) ensures other in kept {
      assert other in SetOf(kept);
    }
    forall id | id in ids ensures id in InScore(active, op.min, op.max) { assert id in SetOf(kept); }
    forall id, other | id in ids && other in active && other !in ids && InRange(active[other], op.min, op.max)
      ensures active[id] <= active[other]
    {
      assert other in SetOf(kept);
      var i :| 0 <= i < |ids| && ids[i] == id;
      var j :| 0 <= j < |kept| && kept[j] == other;
      assert other !in kept[..|ids|];
    }
  }

  lemma PullRefines(z: ZPools, op: Op)
    requires Inv(z) && op.Pull?
    ensures var (z', ids) := RunPull(z, op.n, op.min, op.max, op.deadline);
            Inv(z') && Step(Abs(z), op, ids, Abs(z'))
  {
    var (z', ids) := RunPull(z, op.n, op.min, op.max, op.deadline);
    PullElementsOrdered(z.active, op);
    PullMaps(MapsOf(z), MapsOf(z'), op, ids);
  }

  /** Every script keeps the pool invariant and is a step of the abstract machine. */
  lemma Refines(z: ZPools, op: Op)
    requires Inv(z)
    ensures var (z', ids) := Apply(z, op); Inv(z') && Step(Abs(z), op, ids, Abs(z'))
  {
    match op
    case Insert(messages) => AddRefines(z, messages);
    case Pull(n, min, max, deadline) => PullRefines(z, op);
    case MakeAvailable(id, score) => MoveRefines(z, id, score);
    case Lock(id, kind, until, score) => LockRefines(z, id, kind, until, score);
    case Unlock(kind, now, fallback) => UnlockRefines(z, kind, now, fallback);
    case Timeout(now) => TimeoutRefines(z, now);
    case Remove(ids) => RemoveRefines(z, ids);
    case Flush =>
  }
}
