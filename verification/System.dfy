/** The whole of Deckard at one moment: storage, the pools of every queue, and the recovery
    keys; and what every service call and housekeeping task does to it. */
module System {
  import opened Score
  import opened Pools
  import opened StorageModel
  import opened RecoveryKeys
  import opened Clock

  datatype Sys = Sys(shelf: Shelf, cache: map<string, Table>, keys: Keys) {
    function Pool(queue: string): Table {
      if queue in cache then cache[queue] else map[]
    }

    predicate Cached(d: Doc) {
      d.id in Pool(d.queue)
    }
  }

  const EMPTY := Sys(Shelf(map[], 0), map[], NO_KEYS)

  const RECOVERY_BATCH: nat := 4000
  const TTL_BATCH: nat := 10000

  // ---------- cache side ----------

  /** The table an Insert leaves. */
  function Inserted(t: Table, messages: seq<Msg>): Table {
    var latest := Latest(messages);
    t + map id | id in latest && id !in t :: Active(latest[id])
  }

  /** What an insertion into a pool may leave: every id of the batch is there, ids that were there
      stay where they were, and a new id is active with the score of one of its messages. */
  ghost predicate Fills(t: Table, messages: seq<Msg>, t': Table) {
    && t'.Keys == t.Keys + Latest(messages).Keys
    && (forall id | id in t :: t'[id] == t[id])
    && (forall id | id in t' && id !in t :: t'[id].Active? && Msg(id, t'[id].score) in messages)
  }

  lemma {:induction false} LatestIsMember(messages: seq<Msg>, id: string)
    requires id in Latest(messages)
    ensures Msg(id, Latest(messages)[id]) in messages
  {
    var n := |messages| - 1;
    if messages[n].id == id {
      assert messages[n] == Msg(id, Latest(messages)[id]);
    } else {
      LatestIsMember(messages[..n], id);
    }
  }

  lemma InsertedFills(t: Table, messages: seq<Msg>)
    ensures Fills(t, messages, Inserted(t, messages))
  {
    forall id | id in Latest(messages) ensures Msg(id, Latest(messages)[id]) in messages {
      LatestIsMember(messages, id);
    }
    hide Latest;
  }

  ghost predicate SameElsewhere(s: Sys, s': Sys, queue: string) {
    forall other | other != queue :: s'.Pool(other) == s.Pool(other)
  }

  /** One cache operation on one queue. */
  ghost predicate Operates(s: Sys, queue: string, op: Op, ids: seq<string>, s': Sys) {
    Step(s.Pool(queue), op, ids, s'.Pool(queue)) && SameElsewhere(s, s', queue)
  }

  /** A housekeeping operation moves some due ids, in any set of queues. */
  ghost predicate Sweeps(s: Sys, op: Op, queue: string, s': Sys) {
    exists ids :: Step(s.Pool(queue), op, ids, s'.Pool(queue))
  }

  // ---------- requests ----------

  /** A message of an AddRequest, with its expiry date already computed from the TTL. */
  datatype AddItem = AddItem(queue: string, id: string, score: real, expiry: int, timeless: bool, content: string)

  /** Storage rejects a message without a queue or an id. */
  predicate Addable(item: AddItem) {
    item.queue != "" && item.id != ""
  }

  predicate AllAddable(items: seq<AddItem>) {
    forall i | 0 <= i < |items| :: Addable(items[i])
  }

  /** How many messages of a batch storage takes before it meets a nameless one. */
  function Accepted(items: seq<AddItem>): (n: nat)
    ensures n <= |items| && AllAddable(items[..n])
    ensures n < |items| ==> !Addable(items[n])
  {
    if items == [] || !Addable(items[0]) then 0
    else
      var n := 1 + Accepted(items[1..]);
      assert forall i | 0 < i < n :: items[i] == items[1..][..n - 1][i - 1];
      n
  }

  function ToMessage(item: AddItem, now: nat): NewMessage {
    NewMessage(item.queue, item.id, AddScore(item.score, Ms(now)), item.expiry, item.timeless, item.content)
  }

  function ToMessages(items: seq<AddItem>, now: nat): seq<NewMessage> {
    seq(|items|, i requires 0 <= i < |items| => ToMessage(items[i], now))
  }

  /** What the cache layer sees of added messages. */
  function Queued(messages: seq<NewMessage>): seq<QueuedMsg> {
    seq(|messages|, i requires 0 <= i < |messages| => QueuedMsg(messages[i].queue, messages[i].id, messages[i].score))
  }

  datatype Reply = Reply(requested: real, scoreSubtract: real, lockMs: int)

  function ReplyScore(kind: LockKind, reply: Reply, now: nat): real {
    if kind == LockAck then AckScore(reply.requested, reply.scoreSubtract, reply.lockMs, Ms(now))
    else NackScore(reply.requested, reply.lockMs)
  }

  datatype Action =
    | Add(items: seq<AddItem>)
    | Pull(queue: string, op: Op, retryAt: nat)
    | Settle(kind: LockKind, queue: string, id: string, reply: Reply)
    | SettleAndRemove(kind: LockKind, queue: string, id: string, reply: Reply)
    | Remove(queue: string, ids: seq<string>)
    | Housekeep(op: Op)
    | RemoveExpired
    | RemoveExceeding(queue: string, maxElements: int)
    | Recover(scanAt: nat)
    | WipeCache
    | FlushAll

  // ---------- what each action does ----------

  ghost predicate AddStep(s: Sys, messages: seq<NewMessage>, s': Sys) {
    && s'.shelf == Put(s.shelf, messages)
    && s'.keys == s.keys
    && forall queue :: Fills(s.Pool(queue), Part(Queued(messages), queue), s'.Pool(queue))
  }

  lemma InsertedIsAddStep(s: Sys, messages: seq<NewMessage>, s': Sys)
    requires s'.shelf == Put(s.shelf, messages) && s'.keys == s.keys
    requires forall queue :: s'.Pool(queue) == Inserted(s.Pool(queue), Part(Queued(messages), queue))
    ensures AddStep(s, messages, s')
  {
    forall queue { InsertedFills(s.Pool(queue), Part(Queued(messages), queue)); }
    hide Fills;
    hide Inserted;
  }

  /** An Add that meets a nameless message: the messages before it stay stored, none is cached. */
  ghost predicate FailedAddStep(s: Sys, messages: seq<NewMessage>, s': Sys) {
    s' == s.(shelf := Put(s.shelf, messages))
  }

  /** Some stored document answers for `id` at one of the two reads of a pull. */
  ghost predicate Found(docs: Docs, queue: string, id: string, now: nat, retryAt: nat) {
    exists d :: Stored(docs, d) && d.queue == queue && d.id == id && (Live(d, now) || Live(d, retryAt))
  }

  /** The pulled ids that storage answers for at neither read. */
  ghost function Purged(docs: Docs, queue: string, ids: seq<string>, now: nat, retryAt: nat): set<string> {
    set id | id in ids && !Found(docs, queue, id, now, retryAt)
  }

  /** A pull takes ids from the cache and purges those storage does not answer for. */
  ghost predicate ReconcileStep(s: Sys, queue: string, op: Op, ids: seq<string>, now: nat, retryAt: nat, s': Sys)
    requires op.Pull?
  {
    && s'.shelf == s.shelf && s'.keys == s.keys && SameElsewhere(s, s', queue)
    && exists taken :: Step(s.Pool(queue), op, ids, taken)
                       && s'.Pool(queue) == taken - Purged(s.shelf.docs, queue, ids, now, retryAt)
  }

  /** Ack and Nack: storage records the score, then the message is locked or made available. */
  ghost predicate AckStep(s: Sys, kind: LockKind, queue: string, id: string, score: real, lockMs: int, now: nat,
                          s': Sys) {
    if queue == "" || id == "" then s' == s
    else
      && s'.shelf == s.shelf.(docs := Rescore(s.shelf.docs, queue, id, score, lockMs))
      && s'.keys == s.keys
      && exists ids :: Operates(s, queue, AckOp(kind, id, score, lockMs, now), ids, s')
  }

  function AckOp(kind: LockKind, id: string, score: real, lockMs: int, now: nat): Op {
    if lockMs > 0 then Lock(id, kind, (Ms(now) + lockMs) as real, score) else MakeAvailable(id, score)
  }

  ghost predicate RemoveStep(s: Sys, queue: string, ids: seq<string>, s': Sys) {
    && s'.shelf == s.shelf.(docs := Without(s.shelf.docs, queue, ids))
    && s'.keys == s.keys
    && Operates(s, queue, Pools.Remove(ids), [], s')
  }

  /** An Ack or Nack that asks for removal: settle, then remove, unless the message has no name. */
  ghost predicate SettleAndRemoveStep(s: Sys, kind: LockKind, queue: string, id: string, reply: Reply, now: nat,
                                      settled: Sys, s': Sys) {
    && AckStep(s, kind, queue, id, ReplyScore(kind, reply, now), reply.lockMs, now, settled)
    && if queue == "" || id == "" then s' == settled else RemoveStep(settled, queue, [id], s')
  }

  ghost predicate SweepStep(s: Sys, op: Op, s': Sys) {
    s'.shelf == s.shelf && s'.keys == s.keys && forall queue :: Sweeps(s, op, queue, s')
  }

  /** The documents `victims` leave storage and every pool. */
  ghost predicate EvictStep(s: Sys, victims: seq<Doc>, s': Sys) {
    && s'.shelf.counter == s.shelf.counter && s'.keys == s.keys
    && (forall d :: Stored(s'.shelf.docs, d) <==> Stored(s.shelf.docs, d) && d !in victims)
    && WellKeyed(s'.shelf.docs)
    && (forall queue, id :: id in s'.Pool(queue) <==> id in s.Pool(queue) && !Evicted(victims, queue, id))
    && (forall queue, id | id in s'.Pool(queue) :: s'.Pool(queue)[id] == s.Pool(queue)[id])
  }

  predicate Evicted(victims: seq<Doc>, queue: string, id: string) {
    exists i | 0 <= i < |victims| :: victims[i].queue == queue && victims[i].id == id
  }

  /** TTL eviction: nothing while recovery runs, else the documents that expire first, up to the batch size. */
  ghost predicate ExpiredStep(s: Sys, filterDate: int, victims: seq<Doc>, s': Sys) {
    if s.keys.running then s' == s
    else
      && Answers(s.shelf.docs, filterDate, ANY.(expiredBy := Some(filterDate)), ByExpiry, TTL_BATCH, victims)
      && EvictStep(s, victims, s')
  }

  function CountOf(docs: Docs, queue: string): int {
    |set k | k in docs && docs[k].queue == queue|
  }

  /** Max-elements eviction of one queue. */
  ghost predicate ExceedingStep(s: Sys, queue: string, maxElements: int, now: int, victims: seq<Doc>, s': Sys) {
    var excess := CountOf(s.shelf.docs, queue) - maxElements;
    if s.keys.running || maxElements <= 0 || queue == "" || excess <= 0 then s' == s
    else
      && Answers(s.shelf.docs, now, ANY.(queue := queue), ByExpiry, excess, victims)
      && EvictStep(s, victims, s')
  }

  // ---------- recovery ----------

  function Bound(b: Breakpoint): Option<int> {
    if b.At? then Some(b.internalId) else None
  }

  /** tryToStartRecovery: the keys it leaves, given the answer to its query for the last document. */
  function Started(keys: Keys, last: seq<Doc>): Keys {
    if last == [] then keys.(running := false, scanned := Finished)
    else keys.(running := true, target := RecoveryKeys.At(last[0].internalId))
  }

  predicate MustStart(keys: Keys) {
    keys.scanned.Unset? && !keys.running
  }

  function ScanFilter(keys: Keys): Filter {
    Filter("", [], Bound(keys.scanned), Bound(keys.target), None)
  }

  /** What the cache layer sees of recovered documents: scores are brought back into range. */
  function Recalled(batch: seq<Doc>): seq<QueuedMsg> {
    seq(|batch|, i requires 0 <= i < |batch| => QueuedMsg(batch[i].queue, batch[i].id, Clamp(batch[i].score)))
  }

  function AfterBatch(keys: Keys, batch: seq<Doc>): Keys {
    if |batch| < RECOVERY_BATCH then keys.(running := false, scanned := Finished)
    else keys.(scanned := RecoveryKeys.At(batch[|batch| - 1].internalId))
  }

  /** One batch: the documents after the breakpoint enter the cache, and the breakpoint moves. */
  ghost predicate ScanStep(s: Sys, keys: Keys, scanAt: nat, batch: seq<Doc>, s': Sys) {
    && Answers(s.shelf.docs, scanAt, ScanFilter(keys), ByIdAscending, RECOVERY_BATCH, batch)
    && s'.shelf == s.shelf
    && s'.keys == AfterBatch(keys, batch)
    && forall queue :: Fills(s.Pool(queue), Part(Recalled(batch), queue), s'.Pool(queue))
  }

  ghost predicate RecoverStep(s: Sys, now: nat, scanAt: nat, last: seq<Doc>, batch: seq<Doc>, s': Sys) {
    if s.keys.scanned.Finished? then s' == s
    else if MustStart(s.keys) then
      && Answers(s.shelf.docs, now, ANY, ByIdDescending, 1, last)
      && if last == [] then s' == s.(keys := Started(s.keys, last))
         else ScanStep(s, Started(s.keys, last), scanAt, batch, s')
    else ScanStep(s, s.keys, scanAt, batch, s')
  }

  // ---------- one action ----------

  ghost predicate Next(s: Sys, action: Action, now: nat, s': Sys) {
    match action
    case Add(items) =>
      if AllAddable(items) then AddStep(s, ToMessages(items, now), s')
      else FailedAddStep(s, ToMessages(items[..Accepted(items)], now), s')
    case Pull(queue, op, retryAt) => op.Pull? && exists ids :: ReconcileStep(s, queue, op, ids, now, retryAt, s')
    case Settle(kind, queue, id, r) => AckStep(s, kind, queue, id, ReplyScore(kind, r, now), r.lockMs, now, s')
    case SettleAndRemove(kind, queue, id, r) =>
      exists settled :: SettleAndRemoveStep(s, kind, queue, id, r, now, settled, s')
    case Remove(queue, ids) => RemoveStep(s, queue, ids, s')
    case Housekeep(op) => (op.Timeout? || op.Unlock?) && SweepStep(s, op, s')
    case RemoveExpired => exists victims :: ExpiredStep(s, now, victims, s')
    case RemoveExceeding(queue, maxElements) => exists victims :: ExceedingStep(s, queue, maxElements, now, victims, s')
    case Recover(scanAt) => exists last, batch :: RecoverStep(s, now, scanAt, last, batch, s')
    case WipeCache => s' == s.(cache := map[], keys := NO_KEYS)
    case FlushAll => s' == Sys(Shelf(map[], s.shelf.counter), map[], NO_KEYS)
  }
}
