/** How documents leave storage: every way is named, and a live one goes without being asked for
    only by a limit on its queue, a flush, or, although it is timeless, by its overwritten expiry. */
module Departures {
  import opened Score
  import opened Pools
  import PoolRuns
  import opened StorageModel
  import opened System
  import opened NoLoss
  import opened SystemShape
  import opened EvictionTies

  /** The document is still there: its number under its name; score and expiry may have changed. */
  predicate Kept(docs: Docs, d: Doc) {
    HasDoc(docs, d.queue, d.id) && docs[KeyOf(d)].internalId == d.internalId
  }

  /** The actions that may take a document out of storage. */
  predicate Takes(action: Action, now: nat, d: Doc) {
    match action
    case Remove(queue, ids) => d.queue == queue && d.id in ids
    case SettleAndRemove(_, queue, id, _) => d.queue == queue && d.id == id
    case RemoveExceeding(queue, _) => d.queue == queue && Live(d, now)
    case RemoveExpired => d.expiry <= now
    case FlushAll => true
    case _ => false
  }

  lemma EvictTakes(s: Sys, victims: seq<Doc>, s': Sys, d: Doc)
    requires WellKeyed(s.shelf.docs) && EvictStep(s, victims, s') && Stored(s.shelf.docs, d)
    ensures d in victims || Kept(s'.shelf.docs, d)
  {
    assert d !in victims ==> Stored(s'.shelf.docs, d);
  }

  lemma PutKeepsDoc(s: Shelf, messages: seq<NewMessage>, d: Doc)
    requires Stored(s.docs, d)
    ensures Kept(Put(s, messages).docs, d)
  {
    PutKeepsIdentity(s, messages, KeyOf(d));
  }

  lemma AddKeepsDoc(s: Sys, items: seq<AddItem>, now: nat, s': Sys, d: Doc)
    requires Next(s, Action.Add(items), now, s') && Stored(s.shelf.docs, d)
    ensures Kept(s'.shelf.docs, d)
  {
    var taken := if AllAddable(items) then items else items[..Accepted(items)];
    PutKeepsDoc(s.shelf, ToMessages(taken, now), d);
    hide Put;
    hide Fills;
  }

  lemma SettleKeepsDoc(s: Sys, kind: LockKind, queue: string, id: string, score: real, lockMs: int, now: nat, s': Sys,
                       d: Doc)
    requires AckStep(s, kind, queue, id, score, lockMs, now, s') && Stored(s.shelf.docs, d)
    ensures Kept(s'.shelf.docs, d)
    ensures s'.shelf.docs[KeyOf(d)].queue == d.queue && s'.shelf.docs[KeyOf(d)].id == d.id
  {
    hide Operates;
  }

  lemma RemoveTakes(s: Sys, queue: string, ids: seq<string>, s': Sys, d: Doc)
    requires RemoveStep(s, queue, ids, s') && Kept(s.shelf.docs, d)
    ensures Kept(s'.shelf.docs, d) <==> !(d.queue == queue && d.id in ids)
  {
    hide Operates;
  }

  lemma SettleAndRemoveTakes(s: Sys, kind: LockKind, queue: string, id: string, r: Reply, now: nat, s': Sys, d: Doc)
    requires Shape(s) && Stored(s.shelf.docs, d)
    requires Next(s, Action.SettleAndRemove(kind, queue, id, r), now, s')
    ensures Kept(s'.shelf.docs, d) <==> id == "" || !(d.queue == queue && d.id == id)
  {
    assert Sound(s.shelf, s.shelf.docs[KeyOf(d)]);
    var settled :| SettleAndRemoveStep(s, kind, queue, id, r, now, settled, s');
    SettleKeepsDoc(s, kind, queue, id, ReplyScore(kind, r, now), r.lockMs, now, settled, d);
    hide AckStep;
    hide Shape;
    if queue != "" && id != "" {
      RemoveTakes(settled, queue, [id], s', d);
    }
    hide RemoveStep;
  }

  lemma ExpiredTakes(s: Sys, now: nat, s': Sys, d: Doc)
    requires Shape(s) && Next(s, Action.RemoveExpired, now, s') && Stored(s.shelf.docs, d)
    ensures Kept(s'.shelf.docs, d) || d.expiry <= now
  {
    var victims :| ExpiredStep(s, now, victims, s');
    if !s.keys.running {
      EvictTakes(s, victims, s', d);
      hide EvictStep;
    }
  }

  lemma ExceedingTakes(s: Sys, queue: string, maxElements: int, now: nat, s': Sys, d: Doc)
    requires Shape(s) && Next(s, Action.RemoveExceeding(queue, maxElements), now, s') && Stored(s.shelf.docs, d)
    ensures Kept(s'.shelf.docs, d) || (d.queue == queue && Live(d, now))
  {
    var victims :| ExceedingStep(s, queue, maxElements, now, victims, s');
    if s' != s {
      EvictTakes(s, victims, s', d);
      hide EvictStep;
    }
  }

  /** One action: a stored document stays unless the action may take it; what is named goes. */
  lemma LeavesOnlyBy(s: Sys, action: Action, now: nat, s': Sys, d: Doc)
    requires Shape(s) && Next(s, action, now, s') && Stored(s.shelf.docs, d)
    ensures Kept(s'.shelf.docs, d) || Takes(action, now, d)
    ensures action.Remove? || action.FlushAll? || (action.SettleAndRemove? && action.id != "") ==>
              (Kept(s'.shelf.docs, d) <==> !Takes(action, now, d))
    ensures Live(d, now) && action.RemoveExpired? && !Kept(s'.shelf.docs, d) ==> d.timeless && d.expiry <= now
  {
    match action
    case Add(items) => AddKeepsDoc(s, items, now, s', d); hide Next;
    case Settle(kind, queue, id, r) =>
      SettleKeepsDoc(s, kind, queue, id, ReplyScore(kind, r, now), r.lockMs, now, s', d);
      hide Next;
    case SettleAndRemove(kind, queue, id, r) => SettleAndRemoveTakes(s, kind, queue, id, r, now, s', d); hide Next;
    case Remove(queue, ids) => RemoveTakes(s, queue, ids, s', d); hide Next;
    case RemoveExpired => ExpiredTakes(s, now, s', d); hide Next;
    case RemoveExceeding(queue, maxElements) => ExceedingTakes(s, queue, maxElements, now, s', d); hide Next;
    case Pull(queue, op, retryAt) =>
      var ids :| ReconcileStep(s, queue, op, ids, now, retryAt, s');
      hide Step;
    case Housekeep(op) => hide Sweeps;
    case Recover(scanAt) =>
      var last, batch :| RecoverStep(s, now, scanAt, last, batch, s');
      hide Answers;
    case WipeCache =>
    case FlushAll =>
  }

  // ---------- runs ----------

  ghost predicate Holds(run: Run, i: nat, d: Doc)
    requires run.Valid() && i <= |run.actions|
  {
    Kept(run.states[i].shelf.docs, d)
  }

  ghost function HeldAt(run: Run, d: Doc): (held: seq<bool>)
    requires run.Valid()
    ensures |held| == |run.actions| + 1
    ensures forall i | 0 <= i < |held| :: held[i] <==> !Holds(run, i, d)
  {
    seq(|run.actions| + 1, i requires 0 <= i <= |run.actions| => !Holds(run, i, d))
  }

  /** A document that a run held and no longer holds was taken by one action in between: one that
      names it, a limit on its queue while it was live, a flush, or TTL once its expiry had passed. */
  lemma Departure(run: Run, i: nat, j: nat, d: Doc) returns (m: nat, was: Doc)
    requires run.Valid() && i < j <= |run.actions| && Holds(run, i, d) && !Holds(run, j, d)
    ensures i <= m < j && Stored(run.states[m].shelf.docs, was)
    ensures was.queue == d.queue && was.id == d.id && was.internalId == d.internalId
    ensures !Holds(run, m + 1, d) && Takes(run.actions[m], run.times[m], was)
    ensures Live(was, run.times[m]) && run.actions[m].RemoveExpired? ==> was.timeless
  {
    m := PoolRuns.Crossing(HeldAt(run, d), i, j);
    StepOf(run, m);
    RunKeepsShape(run, m);
    was := run.states[m].shelf.docs[KeyOf(d)];
    hide Next;
    LeavesOnlyBy(run.states[m], run.actions[m], run.times[m], run.states[m + 1], was);
  }

  // ---------- when TTL takes a timeless document ----------

  ghost predicate KeepsTimeless(s: Sys, s': Sys) {
    forall d | Stored(s.shelf.docs, d) && d.timeless :: Stored(s'.shelf.docs, d)
  }

  /** The state that evicting `victims` leaves. */
  ghost function Evict(s: Sys, victims: seq<Doc>): Sys {
    s.(shelf := s.shelf.(docs := s.shelf.docs - KeysOf(victims)),
       cache := map queue | queue in s.cache :: Uncached(s.cache[queue], victims, queue))
  }

  ghost function Uncached(t: Table, victims: seq<Doc>, queue: string): Table {
    map id | id in t && !Evicted(victims, queue, id) :: t[id]
  }

  lemma EvictIsStep(s: Sys, victims: seq<Doc>)
    requires WellKeyed(s.shelf.docs) && forall v | v in victims :: Stored(s.shelf.docs, v)
    ensures EvictStep(s, victims, Evict(s, victims))
  {
    var docs, docs' := s.shelf.docs, Evict(s, victims).shelf.docs;
    forall d ensures Stored(docs', d) <==> Stored(docs, d) && d !in victims {
      if Stored(docs, d) {
        KeysInAnswer(docs, victims, KeyOf(d));
      }
    }
    hide Evicted;
  }

  /** An expired document that the query can reach is a victim of some outcome. */
  lemma CanBeVictim(docs: Docs, f: Filter, now: int, limit: nat, res: seq<Doc>, d: Doc) returns (other: seq<Doc>)
    requires WellKeyed(docs) && limit > 0 && Answers(docs, now, f, ByExpiry, limit, res)
    requires Stored(docs, d) && Selected(d, f, now) && |Sooner(docs, f, now, d.expiry)| < limit
    ensures Answers(docs, now, f, ByExpiry, limit, other) && d in other
  {
    if d in res {
      other := res;
    } else {
      AnswerSize(docs, now, f, ByExpiry, limit, res);
      var k := NotIn(KeysOf(res), Sooner(docs, f, now, d.expiry));
      var v := docs[k];
      KeysInAnswer(docs, res, k);
      assert Leq(ByExpiry, v, d);
      other := SwapAnswers(docs, f, now, limit, res, v, d);
    }
  }

  /** A victim has fewer than a batch of documents that expire sooner. */
  lemma VictimIsNear(docs: Docs, f: Filter, now: int, limit: nat, res: seq<Doc>, d: Doc)
    requires WellKeyed(docs) && limit > 0 && Answers(docs, now, f, ByExpiry, limit, res) && d in res
    ensures |Sooner(docs, f, now, d.expiry)| < limit
  {
    var sooner := Sooner(docs, f, now, d.expiry);
    AnswerSize(docs, now, f, ByExpiry, limit, res);
    forall k | k in sooner ensures k in KeysOf(res) {
      KeysInAnswer(docs, res, k);
      assert Stored(docs, docs[k]);
      assert docs[k] !in res ==> Leq(ByExpiry, d, docs[k]);
    }
    KeysInAnswer(docs, res, KeyOf(d));
    SubsetSize(sooner + {KeyOf(d)}, KeysOf(res));
  }

  function ExpiredFilter(now: int): Filter {
    ANY.(expiredBy := Some(now))
  }

  /** A timeless document whose stored expiry has passed and that a TTL call can reach. */
  ghost predicate InReach(s: Sys, now: nat, d: Doc) {
    && Stored(s.shelf.docs, d) && d.timeless && d.expiry <= now
    && |Sooner(s.shelf.docs, ExpiredFilter(now), now, d.expiry)| < 10000
  }

  ghost predicate AlwaysKeepsTimeless(s: Sys, now: nat) {
    forall victims, s' | ExpiredStep(s, now, victims, s') :: KeepsTimeless(s, s')
  }

  /** TTL takes no timeless document, whatever order it works in, exactly while recovery runs or
      no timeless document in its reach has a stored expiry that has passed. */
  lemma TimelessKeptIff(s: Sys, now: nat, victims: seq<Doc>, s': Sys)
    requires WellKeyed(s.shelf.docs) && ExpiredStep(s, now, victims, s')
    ensures AlwaysKeepsTimeless(s, now) <==> s.keys.running || forall d :: !InReach(s, now, d)
  {
    if !s.keys.running && exists d :: InReach(s, now, d) {
      var d :| InReach(s, now, d);
      var other := CanBeVictim(s.shelf.docs, ExpiredFilter(now), now, TTL_BATCH, victims, d);
      EvictIsStep(s, other);
      assert ExpiredStep(s, now, other, Evict(s, other));
      assert !Stored(Evict(s, other).shelf.docs, d);
    }
    if s.keys.running || forall d :: !InReach(s, now, d) {
      forall other, t | ExpiredStep(s, now, other, t) ensures KeepsTimeless(s, t) {
        forall d | Stored(s.shelf.docs, d) && d.timeless ensures Stored(t.shelf.docs, d) {
          if !s.keys.running && d in other {
            VictimIsNear(s.shelf.docs, ExpiredFilter(now), now, TTL_BATCH, other, d);
            assert InReach(s, now, d);
          }
        }
      }
    }
  }
}
