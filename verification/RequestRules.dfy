/** What a request does to the state, told from the request alone: which score, lock time, expiry
    and place a message gets. The functions that compute them are not named here. */
module RequestRules {
  import opened Score
  import opened Pools
  import opened StorageModel
  import opened RecoveryKeys
  import opened Clock
  import opened System

  /** `r` is `x`, or the nearer end of the range 0..2^53 if `x` lies outside. */
  predicate BroughtInRange(x: real, r: real) {
    && (x < 0.0 ==> r == 0.0)
    && (0.0 <= x <= 9007199254740992.0 ==> r == x)
    && (x > 9007199254740992.0 ==> r == 9007199254740992.0)
  }

  // ---------- Ack and Nack ----------

  /** The score a settlement gives. Without a score and without a lock an Ack gives the time less the
      subtraction, and a Nack the minimum; without a score and with a lock it is left open as -1. */
  predicate SettledScore(kind: LockKind, reply: Reply, now: nat, score: real) {
    if reply.requested != 0.0 then score == reply.requested
    else if reply.lockMs != 0 then score == -1.0
    else if kind == LockNack then score == 0.0
    else BroughtInRange(Ms(now) as real - reply.scoreSubtract, score)
  }

  /** Where a settled message goes. */
  function SettledPlace(kind: LockKind, lockMs: int, now: nat, score: real): Loc {
    if lockMs > 0 then Locked(kind, (Ms(now) + lockMs) as real, score) else Active(score)
  }

  /** The document under the joined key has the new score and lock time; nothing else in storage changes. */
  ghost predicate Recorded(docs: Docs, queue: string, id: string, score: real, lockMs: int, docs': Docs) {
    && docs'.Keys == docs.Keys
    && forall k | k in docs ::
         docs'[k] == if k == queue + ":" + id then docs[k].(score := score, lockMs := lockMs) else docs[k]
  }

  ghost predicate SettledWith(s: Sys, kind: LockKind, queue: string, id: string, lockMs: int, now: nat, score: real,
                              s': Sys) {
    && Recorded(s.shelf.docs, queue, id, score, lockMs, s'.shelf.docs)
    && s'.shelf.counter == s.shelf.counter && s'.keys == s.keys && SameElsewhere(s, s', queue)
    && s'.Pool(queue) == if id in s.Pool(queue) && s.Pool(queue)[id].Processing?
                         then s.Pool(queue)[id := SettledPlace(kind, lockMs, now, score)]
                         else s.Pool(queue)
  }

  /** A settlement moves a processing message to its place with that score, and records the score. */
  ghost predicate Settled(s: Sys, kind: LockKind, queue: string, id: string, reply: Reply, now: nat, s': Sys) {
    if queue == "" || id == "" then s' == s
    else exists score :: SettledScore(kind, reply, now, score)
                         && SettledWith(s, kind, queue, id, reply.lockMs, now, score, s')
  }

  lemma SettleRule(s: Sys, kind: LockKind, queue: string, id: string, reply: Reply, now: nat, s': Sys)
    requires Next(s, Settle(kind, queue, id, reply), now, s')
    ensures Settled(s, kind, queue, id, reply, now, s')
  {
    if queue != "" && id != "" {
      var score := ReplyScore(kind, reply, now);
      assert SettledScore(kind, reply, now, score);
      assert SettledWith(s, kind, queue, id, reply.lockMs, now, score, s');
    }
  }

  /** An Ack without a score and without a lock puts a processing message back at the present time
      less the requested subtraction. */
  lemma AckGoesBehind(s: Sys, queue: string, id: string, subtract: real, now: nat, s': Sys)
    requires Next(s, Settle(LockAck, queue, id, Reply(0.0, subtract, 0)), now, s') && queue != "" && id != ""
    requires id in s.Pool(queue) && s.Pool(queue)[id].Processing?
    ensures id in s'.Pool(queue) && s'.Pool(queue)[id].Active?
    ensures BroughtInRange(Ms(now) as real - subtract, s'.Pool(queue)[id].score)
  {
    SettleRule(s, LockAck, queue, id, Reply(0.0, subtract, 0), now, s');
    hide Next;
  }

  // ---------- Add ----------

  /** The score an added message gets: the time without a requested score, else the request in range. */
  predicate AddedScore(requested: real, now: nat, score: real) {
    if requested == 0.0 then score == Ms(now) as real else BroughtInRange(requested, score)
  }

  predicate Names(items: seq<AddItem>, i: int, queue: string, id: string) {
    0 <= i < |items| && items[i].queue == queue && items[i].id == id
  }

  /** An id that was cached stays where it was; an id of the batch that was not is active with the
      score of one of its messages. */
  ghost predicate AddedTo(s: Sys, items: seq<AddItem>, now: nat, s': Sys, queue: string, id: string) {
    if id in s.Pool(queue) then
      id in s'.Pool(queue) && s'.Pool(queue)[id] == s.Pool(queue)[id]
    else if id in s'.Pool(queue) then
      && s'.Pool(queue)[id].Active?
      && exists i :: Names(items, i, queue, id) && AddedScore(items[i].score, now, s'.Pool(queue)[id].score)
    else
      forall i :: !Names(items, i, queue, id)
  }

  lemma AddedMessages(s: Sys, items: seq<AddItem>, now: nat, s': Sys, queue: string, id: string)
    requires AddStep(s, ToMessages(items, now), s')
    ensures AddedTo(s, items, now, s', queue, id)
  {
    var messages := Queued(ToMessages(items, now));
    var part := Part(messages, queue);
    assert Fills(s.Pool(queue), part, s'.Pool(queue));
    hide Put;
    forall i | Names(items, i, queue, id) ensures id in Latest(part) {
      PartHolds(messages, i);
    }
    if id in s'.Pool(queue) && id !in s.Pool(queue) {
      var i := PartMember(messages, queue, Msg(id, s'.Pool(queue)[id].score));
      assert Names(items, i, queue, id) && AddedScore(items[i].score, now, s'.Pool(queue)[id].score);
    }
  }

  /** Every message of a part is one of the batch. */
  lemma {:induction false} PartMember(messages: seq<QueuedMsg>, queue: string, m: Msg) returns (i: nat)
    requires m in Part(messages, queue)
    ensures i < |messages| && messages[i] == QueuedMsg(queue, m.id, m.score)
  {
    var n := |messages| - 1;
    PartSnoc(messages, queue);
    if messages[n] == QueuedMsg(queue, m.id, m.score) {
      i := n;
    } else {
      i := PartMember(messages[..n], queue, m);
    }
  }

  function ItemKey(item: AddItem): string {
    item.queue + ":" + item.id
  }

  predicate Mentions(items: seq<AddItem>, k: string) {
    exists i | 0 <= i < |items| :: ItemKey(items[i]) == k
  }

  predicate FirstWith(items: seq<AddItem>, k: string, i: int) {
    0 <= i < |items| && ItemKey(items[i]) == k && forall j | 0 <= j < i :: ItemKey(items[j]) != k
  }

  predicate LastWith(items: seq<AddItem>, k: string, i: int) {
    0 <= i < |items| && ItemKey(items[i]) == k && forall j | i < j < |items| :: ItemKey(items[j]) != k
  }

  /** What a batch stores under a key: a new document takes name, score and timeless flag from the first
      message with the key, a known one keeps them; both take expiry and content from the last. */
  ghost predicate StoredBy(s: Shelf, items: seq<AddItem>, now: nat, s': Shelf, k: string) {
    if !Mentions(items, k) then
      (k in s'.docs <==> k in s.docs) && (k in s.docs ==> s'.docs[k] == s.docs[k])
    else
      && k in s'.docs
      && (forall i | LastWith(items, k, i) ::
            s'.docs[k].expiry == items[i].expiry && s'.docs[k].content == items[i].content)
      && if k in s.docs then s'.docs[k].(expiry := s.docs[k].expiry, content := s.docs[k].content) == s.docs[k]
         else forall i | FirstWith(items, k, i) :: NewlyStored(s, items[i], now, s'.docs[k])
  }

  predicate NewlyStored(s: Shelf, item: AddItem, now: nat, d: Doc) {
    && d.queue == item.queue && d.id == item.id && d.timeless == item.timeless && d.lockMs == 0
    && AddedScore(item.score, now, d.score) && d.internalId > s.counter
  }

  lemma {:induction false} StoredMessages(s: Shelf, items: seq<AddItem>, now: nat, k: string)
    ensures StoredBy(s, items, now, Put(s, ToMessages(items, now)), k)
  {
    var messages := ToMessages(items, now);
    if items == [] {
      assert Put(s, messages) == s;
    } else {
      var n := |items| - 1;
      var rest := items[..n];
      assert messages[..n] == ToMessages(rest, now);
      StoredMessages(s, rest, now, k);
      PutCounts(s, messages[..n]);
      var before := Put(s, messages[..n]);
      assert Put(s, messages) == PutOne(before, messages[n]);
      hide Put;
      OneMoreStored(s, items, now, before, k);
    }
  }

  lemma OneMoreStored(s: Shelf, items: seq<AddItem>, now: nat, before: Shelf, k: string)
    requires items != [] && s.counter <= before.counter
    requires StoredBy(s, items[..|items| - 1], now, before, k)
    ensures StoredBy(s, items, now, PutOne(before, ToMessage(items[|items| - 1], now)), k)
  {
    hide PutOne;
    hide StoredBy;
    var n := |items| - 1;
    var after := PutOne(before, ToMessage(items[n], now));
    PutOneAt(before, items[n], now, k);
    if ItemKey(items[n]) != k {
      OtherKeyStored(s, items, now, before, after, k);
    } else if Mentions(items[..n], k) {
      assert k in before.docs by {
        KnownKey(s, items[..n], now, before, k);
      }
      SameKeyStored(s, items, now, before, after, k);
    } else {
      NewKeyStored(s, items, now, before, after, k);
    }
  }

  lemma KnownKey(s: Shelf, items: seq<AddItem>, now: nat, s': Shelf, k: string)
    requires StoredBy(s, items, now, s', k) && Mentions(items, k)
    ensures k in s'.docs
  {
  }

  lemma OtherKeyStored(s: Shelf, items: seq<AddItem>, now: nat, before: Shelf, after: Shelf, k: string)
    requires items != [] && ItemKey(items[|items| - 1]) != k && StoredBy(s, items[..|items| - 1], now, before, k)
    requires (k in after.docs <==> k in before.docs) && (k in before.docs ==> after.docs[k] == before.docs[k])
    ensures StoredBy(s, items, now, after, k)
  {
    hide Mentions;
    hide ItemKey;
    hide NewlyStored;
    OtherKeyLast(items, k);
  }

  lemma SameKeyStored(s: Shelf, items: seq<AddItem>, now: nat, before: Shelf, after: Shelf, k: string)
    requires items != [] && ItemKey(items[|items| - 1]) == k && Mentions(items[..|items| - 1], k)
    requires StoredBy(s, items[..|items| - 1], now, before, k) && k in before.docs && k in after.docs
    requires after.docs[k] == before.docs[k].(expiry := items[|items| - 1].expiry,
                                              content := items[|items| - 1].content)
    ensures StoredBy(s, items, now, after, k)
  {
    hide Mentions;
    hide ItemKey;
    SameKeyLast(items, k);
  }

  lemma NewKeyStored(s: Shelf, items: seq<AddItem>, now: nat, before: Shelf, after: Shelf, k: string)
    requires items != [] && ItemKey(items[|items| - 1]) == k && !Mentions(items[..|items| - 1], k)
    requires StoredBy(s, items[..|items| - 1], now, before, k) && s.counter <= before.counter && k in after.docs
    requires after.docs[k].expiry == items[|items| - 1].expiry && after.docs[k].content == items[|items| - 1].content
    requires if k in before.docs
             then after.docs[k] == before.docs[k].(expiry := after.docs[k].expiry, content := after.docs[k].content)
             else NewlyStored(before, items[|items| - 1], now, after.docs[k])
    ensures StoredBy(s, items, now, after, k)
  {
    hide Mentions;
    hide ItemKey;
    NewKeyLast(items, k);
  }

  /** One message changes or creates the document of its own key. */
  lemma PutOneAt(s: Shelf, item: AddItem, now: nat, k: string)
    ensures var s' := PutOne(s, ToMessage(item, now));
            if k != ItemKey(item) then (k in s'.docs <==> k in s.docs) && (k in s.docs ==> s'.docs[k] == s.docs[k])
            else
              && k in s'.docs && s'.docs[k].expiry == item.expiry && s'.docs[k].content == item.content
              && if k in s.docs then s'.docs[k] == s.docs[k].(expiry := item.expiry, content := item.content)
                 else NewlyStored(s, item, now, s'.docs[k])
  {
  }

  lemma OtherKeyLast(items: seq<AddItem>, k: string)
    requires items != [] && ItemKey(items[|items| - 1]) != k
    ensures Mentions(items, k) <==> Mentions(items[..|items| - 1], k)
    ensures forall i :: LastWith(items, k, i) <==> LastWith(items[..|items| - 1], k, i)
    ensures forall i :: FirstWith(items, k, i) <==> FirstWith(items[..|items| - 1], k, i)
  {
    var rest := items[..|items| - 1];
    assert forall i | 0 <= i < |rest| :: rest[i] == items[i];
    if i :| 0 <= i < |rest| && ItemKey(rest[i]) == k {
      assert ItemKey(items[i]) == k;
    }
    if i :| 0 <= i < |items| && ItemKey(items[i]) == k {
      assert ItemKey(rest[i]) == k;
    }
  }

  lemma SameKeyLast(items: seq<AddItem>, k: string)
    requires items != [] && ItemKey(items[|items| - 1]) == k && Mentions(items[..|items| - 1], k)
    ensures Mentions(items, k)
    ensures forall i :: LastWith(items, k, i) <==> i == |items| - 1
    ensures forall i :: FirstWith(items, k, i) <==> FirstWith(items[..|items| - 1], k, i)
  {
    var rest := items[..|items| - 1];
    var l :| 0 <= l < |rest| && ItemKey(rest[l]) == k;
    assert forall i | 0 <= i < |rest| :: rest[i] == items[i];
    assert ItemKey(items[l]) == k;
  }

  lemma NewKeyLast(items: seq<AddItem>, k: string)
    requires items != [] && ItemKey(items[|items| - 1]) == k && !Mentions(items[..|items| - 1], k)
    ensures Mentions(items, k)
    ensures forall i :: LastWith(items, k, i) <==> i == |items| - 1
    ensures forall i :: FirstWith(items, k, i) <==> i == |items| - 1
  {
    var rest := items[..|items| - 1];
    assert forall i | 0 <= i < |rest| :: ItemKey(items[i]) == ItemKey(rest[i]) && ItemKey(rest[i]) != k;
  }

  /** An Add of named messages caches and stores every one of them as its request says. An Add that
      meets a nameless message stores the ones before it and leaves the cache as it was. */
  lemma AddRule(s: Sys, items: seq<AddItem>, now: nat, s': Sys, queue: string, id: string, k: string)
    requires Next(s, Add(items), now, s')
    ensures AllAddable(items) ==> AddedTo(s, items, now, s', queue, id) && StoredBy(s.shelf, items, now, s'.shelf, k)
    ensures !AllAddable(items) ==>
              s'.cache == s.cache && StoredBy(s.shelf, items[..Accepted(items)], now, s'.shelf, k)
  {
    if AllAddable(items) {
      AddedMessages(s, items, now, s', queue, id);
      StoredMessages(s.shelf, items, now, k);
    } else {
      StoredMessages(s.shelf, items[..Accepted(items)], now, k);
    }
    hide AddedTo;
    hide StoredBy;
    hide Put;
  }

  lemma AddRules(s: Sys, items: seq<AddItem>, now: nat, s': Sys)
    requires Next(s, Add(items), now, s')
    ensures AllAddable(items) ==> forall queue, id :: AddedTo(s, items, now, s', queue, id)
    ensures AllAddable(items) ==> forall k :: StoredBy(s.shelf, items, now, s'.shelf, k)
    ensures !AllAddable(items) ==> s'.cache == s.cache
    ensures !AllAddable(items) ==> forall k :: StoredBy(s.shelf, items[..Accepted(items)], now, s'.shelf, k)
  {
    hide Next;
    hide AddedTo;
    hide StoredBy;
    AddRule(s, items, now, s', "", "", "");
    forall queue, id ensures AllAddable(items) ==> AddedTo(s, items, now, s', queue, id) {
      AddRule(s, items, now, s', queue, id, "");
    }
    forall k ensures AllAddable(items) ==> StoredBy(s.shelf, items, now, s'.shelf, k)
             ensures !AllAddable(items) ==> StoredBy(s.shelf, items[..Accepted(items)], now, s'.shelf, k)
    {
      AddRule(s, items, now, s', "", "", k);
    }
  }

  // ---------- recovery ----------

  /** A document of a recovery batch that was not cached is active with its stored score brought in range. */
  lemma RecalledScore(s: Sys, keys: Keys, scanAt: nat, batch: seq<Doc>, s': Sys, d: Doc)
    requires ScanStep(s, keys, scanAt, batch, s') && d in batch && d.id !in s.Pool(d.queue)
    ensures d.id in s'.Pool(d.queue) && s'.Pool(d.queue)[d.id].Active?
    ensures BroughtInRange(d.score, s'.Pool(d.queue)[d.id].score)
  {
    var messages := Recalled(batch);
    assert Fills(s.Pool(d.queue), Part(messages, d.queue), s'.Pool(d.queue));
    var j :| 0 <= j < |batch| && batch[j] == d;
    PartHolds(messages, j);
    var i := PartMember(messages, d.queue, Msg(d.id, s'.Pool(d.queue)[d.id].score));
    assert batch[i] in batch;
    assert batch[i] == d;
  }

  lemma RecalledScores(s: Sys, keys: Keys, scanAt: nat, batch: seq<Doc>, s': Sys)
    requires ScanStep(s, keys, scanAt, batch, s')
    ensures forall d | d in batch && d.id !in s.Pool(d.queue) ::
              && d.id in s'.Pool(d.queue) && s'.Pool(d.queue)[d.id].Active?
              && BroughtInRange(d.score, s'.Pool(d.queue)[d.id].score)
  {
    hide ScanStep;
    hide BroughtInRange;
    forall d | d in batch && d.id !in s.Pool(d.queue)
      ensures d.id in s'.Pool(d.queue) && s'.Pool(d.queue)[d.id].Active?
      ensures BroughtInRange(d.score, s'.Pool(d.queue)[d.id].score)
    {
      RecalledScore(s, keys, scanAt, batch, s', d);
    }
  }

  /** A message that a recovery call brings back was stored and live at the scan. */
  ghost predicate BroughtBack(s: Sys, scanAt: nat, s': Sys, queue: string, id: string) {
    if id in s.Pool(queue) then id in s'.Pool(queue) && s'.Pool(queue)[id] == s.Pool(queue)[id]
    else id in s'.Pool(queue) ==>
      && s'.Pool(queue)[id].Active?
      && exists d :: IsScanned(s, scanAt, d, queue, id) && BroughtInRange(d.score, s'.Pool(queue)[id].score)
  }

  predicate IsScanned(s: Sys, scanAt: nat, d: Doc, queue: string, id: string) {
    && Stored(s.shelf.docs, d) && d.queue == queue && d.id == id && (d.timeless || scanAt < d.expiry)
    && !s.keys.scanned.Finished? && (s.keys.scanned.At? ==> s.keys.scanned.internalId < d.internalId)
  }

  /** A scan reads exactly the documents that have not expired, after the breakpoint and up to the target. */
  lemma ScanWindow(keys: Keys, now: int, d: Doc)
    ensures Selected(d, ScanFilter(keys), now)
            <==> (d.timeless || now < d.expiry)
                 && (keys.scanned.At? ==> keys.scanned.internalId < d.internalId)
                 && (keys.target.At? ==> d.internalId <= keys.target.internalId)
  {
  }

  lemma ScanBringsBack(s: Sys, keys: Keys, scanAt: nat, batch: seq<Doc>, s': Sys, queue: string, id: string)
    requires ScanStep(s, keys, scanAt, batch, s') && keys.scanned == s.keys.scanned && !keys.scanned.Finished?
    ensures BroughtBack(s, scanAt, s', queue, id)
  {
    var messages := Recalled(batch);
    assert Fills(s.Pool(queue), Part(messages, queue), s'.Pool(queue));
    if id in s'.Pool(queue) && id !in s.Pool(queue) {
      var i := PartMember(messages, queue, Msg(id, s'.Pool(queue)[id].score));
      assert batch[i] in batch;
      ScanWindow(keys, scanAt, batch[i]);
      assert IsScanned(s, scanAt, batch[i], queue, id) && BroughtInRange(batch[i].score, s'.Pool(queue)[id].score);
    }
  }

  lemma ScanBringsAllBack(s: Sys, keys: Keys, scanAt: nat, batch: seq<Doc>, s': Sys)
    requires ScanStep(s, keys, scanAt, batch, s') && keys.scanned == s.keys.scanned && !keys.scanned.Finished?
    ensures forall queue, id :: BroughtBack(s, scanAt, s', queue, id)
  {
    hide ScanStep;
    hide BroughtBack;
    forall queue, id ensures BroughtBack(s, scanAt, s', queue, id) {
      ScanBringsBack(s, keys, scanAt, batch, s', queue, id);
    }
  }

  /** A recovery call keeps every cached message where it is, and brings back only live documents, each
      active with its stored score brought in range. */
  lemma RecoverRule(s: Sys, scanAt: nat, now: nat, s': Sys, queue: string, id: string)
    requires Next(s, Recover(scanAt), now, s')
    ensures BroughtBack(s, scanAt, s', queue, id)
  {
    var last, batch :| RecoverStep(s, now, scanAt, last, batch, s');
    var keys := if MustStart(s.keys) then Started(s.keys, last) else s.keys;
    if !s.keys.scanned.Finished? && !(MustStart(s.keys) && last == []) {
      ScanBringsBack(s, keys, scanAt, batch, s', queue, id);
    }
    hide ScanStep;
  }
}
