/** What TTL and max-elements eviction leave behind, counted exactly. */
module Evictions {
  import opened Score
  import opened StorageModel
  import opened System

  /** Eviction takes exactly the victims' keys out of storage. */
  lemma EvictedKeys(s: Sys, victims: seq<Doc>, s': Sys)
    requires WellKeyed(s.shelf.docs) && EvictStep(s, victims, s') && forall d | d in victims :: Stored(s.shelf.docs, d)
    ensures s'.shelf.docs == s.shelf.docs - KeysOf(victims)
  {
    var docs, docs' := s.shelf.docs, s'.shelf.docs;
    forall k | k in docs ensures k in docs' <==> k !in KeysOf(victims) {
      KeysInAnswer(docs, victims, k);
      assert Stored(docs, docs[k]);
      if k in docs' {
        assert Stored(docs', docs'[k]);
      }
    }
    forall k | k in docs' ensures k in docs && docs[k] == docs'[k] { assert Stored(docs', docs'[k]); }
  }

  // ---------- TTL ----------

  function Overdue(docs: Docs, filterDate: int): set<string> {
    set k | k in docs && docs[k].expiry <= filterDate
  }

  /** One TTL call removes min(10000, due) documents, the soonest to expire, from storage and
      every pool, and nothing that expires after the filter date. */
  lemma TtlEviction(s: Sys, filterDate: int, victims: seq<Doc>, s': Sys)
    requires WellKeyed(s.shelf.docs) && !s.keys.running && ExpiredStep(s, filterDate, victims, s')
    ensures var docs, docs' := s.shelf.docs, s'.shelf.docs;
            && |victims| == Min(10000, |Overdue(docs, filterDate)|)
            && docs' == docs - KeysOf(victims) && |KeysOf(victims)| == |victims|
            && KeysOf(victims) <= Overdue(docs, filterDate)
            && |Overdue(docs', filterDate)| == |Overdue(docs, filterDate)| - |victims|
            && (forall v, k | v in victims && k in docs' :: v.expiry <= docs'[k].expiry)
            && (forall v | v in victims :: v.id !in s'.Pool(v.queue))
            && (forall queue, id | !Evicted(victims, queue, id) :: SameEntry(s, queue, id, s'))
            && (forall k | k in docs' :: !Evicted(victims, docs'[k].queue, docs'[k].id))
  {
    var docs, docs' := s.shelf.docs, s'.shelf.docs;
    var f := ANY.(expiredBy := Some(filterDate));
    AnswerSize(docs, filterDate, f, ByExpiry, TTL_BATCH, victims);
    SelectsDue(docs, filterDate);
    EvictedKeys(s, victims, s');
    DueWithout(docs, KeysOf(victims), filterDate);
    SubsetSize(KeysOf(victims), Overdue(docs, filterDate));
    VictimsUncached(s, victims, s');
    OthersStay(s, victims, s');
    hide Answers;
    hide EvictStep;
    hide SameEntry;
    hide SelectedKeys;
    hide Overdue;
    hide KeysOf;
    hide WellKeyed;
    SurvivorsLater(docs, filterDate, f, victims, docs');
  }

  lemma SelectsDue(docs: Docs, filterDate: int)
    ensures SelectedKeys(docs, ANY.(expiredBy := Some(filterDate)), filterDate) == Overdue(docs, filterDate)
  {
  }

  lemma DueWithout(docs: Docs, gone: set<string>, filterDate: int)
    ensures Overdue(docs - gone, filterDate) == Overdue(docs, filterDate) - gone
  {
  }

  lemma SurvivorsLater(docs: Docs, filterDate: int, f: Filter, victims: seq<Doc>, docs': Docs)
    requires WellKeyed(docs) && docs' == docs - KeysOf(victims) && f == ANY.(expiredBy := Some(filterDate))
    requires Answers(docs, filterDate, f, ByExpiry, TTL_BATCH, victims)
    ensures forall v, k | v in victims && k in docs' :: v.expiry <= docs'[k].expiry
  {
    VictimsFirst(docs, filterDate, f, TTL_BATCH, victims);
    forall v, k | v in victims && k in docs' ensures v.expiry <= docs'[k].expiry {
      assert Selected(v, f, filterDate);
      assert Selected(docs[k], f, filterDate) <==> docs[k].expiry <= filterDate;
    }
  }

  /** The pools hold the id at the same place, or not at all. */
  ghost predicate SameEntry(s: Sys, queue: string, id: string, s': Sys) {
    && (id in s'.Pool(queue) <==> id in s.Pool(queue))
    && (id in s.Pool(queue) ==> s'.Pool(queue)[id] == s.Pool(queue)[id])
  }

  /** Pool entries of surviving documents, and of ids that storage does not hold, stay. */
  lemma OthersStay(s: Sys, victims: seq<Doc>, s': Sys)
    requires WellKeyed(s.shelf.docs) && EvictStep(s, victims, s') && forall d | d in victims :: Stored(s.shelf.docs, d)
    ensures forall queue, id | !Evicted(victims, queue, id) :: SameEntry(s, queue, id, s')
    ensures forall k | k in s'.shelf.docs :: !Evicted(victims, s'.shelf.docs[k].queue, s'.shelf.docs[k].id)
  {
    var docs, docs' := s.shelf.docs, s'.shelf.docs;
    forall k | k in docs' ensures !Evicted(victims, docs'[k].queue, docs'[k].id) {
      var d := docs'[k];
      assert Stored(docs', d) && Stored(docs, d);
      forall i | 0 <= i < |victims| ensures !(victims[i].queue == d.queue && victims[i].id == d.id) {
        assert victims[i] in victims && Stored(docs, victims[i]);
      }
    }
  }

  lemma VictimsUncached(s: Sys, victims: seq<Doc>, s': Sys)
    requires EvictStep(s, victims, s')
    ensures forall v | v in victims :: v.id !in s'.Pool(v.queue)
  {
    forall v | v in victims ensures v.id !in s'.Pool(v.queue) {
      var i :| 0 <= i < |victims| && victims[i] == v;
      assert Evicted(victims, v.queue, v.id);
    }
  }

  /** Whatever matches and is not a victim expires no sooner than any victim. */
  lemma VictimsFirst(docs: Docs, now: int, f: Filter, limit: nat, victims: seq<Doc>)
    requires WellKeyed(docs) && limit > 0 && Answers(docs, now, f, ByExpiry, limit, victims)
    ensures forall v, k | v in victims && k in docs && Selected(docs[k], f, now) && k !in KeysOf(victims) ::
              v.expiry <= docs[k].expiry
  {
    forall v, k | v in victims && k in docs && Selected(docs[k], f, now) && k !in KeysOf(victims)
      ensures v.expiry <= docs[k].expiry
    {
      assert Stored(docs, docs[k]);
      KeysInAnswer(docs, victims, k);
      assert Leq(ByExpiry, v, docs[k]);
    }
  }

  /** TTL calls one after the other, with filter dates that do not go back. */
  ghost predicate TtlCalls(states: seq<Sys>, dates: seq<int>) {
    && |states| == |dates| + 1
    && (forall i, j | 0 <= i <= j < |dates| :: dates[i] <= dates[j])
    && (forall i | 0 <= i < |dates| :: EvictsExpired(states[i], dates[i], states[i + 1]))
  }

  ghost predicate EvictsExpired(s: Sys, filterDate: int, s': Sys) {
    exists victims :: ExpiredStep(s, filterDate, victims, s')
  }

  /** A later date sees the same removal. */
  lemma DueLater(docs: Docs, gone: set<string>, date: int, later: int)
    requires date <= later && gone <= Overdue(docs, date)
    ensures |Overdue(docs - gone, later)| == |Overdue(docs, later)| - |gone|
    ensures |Overdue(docs, date)| <= |Overdue(docs, later)|
  {
    DueWithout(docs, gone, later);
    SubsetSize(Overdue(docs, date), Overdue(docs, later));
    SubsetSize(gone, Overdue(docs, later));
  }

  /** One call, seen from a later date: it removes a full batch, or leaves nothing due at its own date. */
  lemma TtlCall(s: Sys, date: int, s': Sys, later: int)
    requires WellKeyed(s.shelf.docs) && !s.keys.running && date <= later && EvictsExpired(s, date, s')
    ensures WellKeyed(s'.shelf.docs) && !s'.keys.running
    ensures Overdue(s'.shelf.docs, date) == {}
            || |Overdue(s'.shelf.docs, later)| == |Overdue(s.shelf.docs, later)| - TTL_BATCH
    ensures Overdue(s.shelf.docs, date) == {} ==> s'.shelf.docs == s.shelf.docs
    ensures s'.shelf.docs.Keys <= s.shelf.docs.Keys
    ensures forall k | k in s'.shelf.docs :: s'.shelf.docs[k] == s.shelf.docs[k]
  {
    var victims :| ExpiredStep(s, date, victims, s');
    TtlEviction(s, date, victims, s');
    DueLater(s.shelf.docs, KeysOf(victims), date, later);
    assert WellKeyed(s'.shelf.docs);
    hide ExpiredStep;
    hide WellKeyed;
  }

  /** After i calls nothing that was due at the first date is left, or i full batches are gone. */
  lemma {:induction false} TtlDrains(states: seq<Sys>, dates: seq<int>, i: nat)
    requires TtlCalls(states, dates) && 0 < i < |states|
    requires WellKeyed(states[0].shelf.docs) && !states[0].keys.running
    ensures WellKeyed(states[i].shelf.docs) && !states[i].keys.running
    ensures Overdue(states[i].shelf.docs, dates[0]) == {}
            || forall last | dates[i - 1] <= last ::
                 |Overdue(states[i].shelf.docs, last)| == |Overdue(states[0].shelf.docs, last)| - i * 10000
    ensures |Overdue(states[0].shelf.docs, dates[i - 1])| <= i * 10000 ==>
            Overdue(states[i].shelf.docs, dates[0]) == {}
  {
    hide WellKeyed;
    hide EvictsExpired;
    var s, s' := states[i - 1], states[i];
    assert EvictsExpired(s, dates[i - 1], s');
    if i > 1 {
      TtlDrains(states, dates, i - 1);
    }
    TtlCall(s, dates[i - 1], s', dates[i - 1]);
    FewerDue(s'.shelf.docs, dates[0], dates[i - 1]);
    FewerLeft(s.shelf.docs, s'.shelf.docs, dates[0]);
    if Overdue(s'.shelf.docs, dates[0]) != {} {
      forall last | dates[i - 1] <= last
        ensures |Overdue(s'.shelf.docs, last)| == |Overdue(states[0].shelf.docs, last)| - i * TTL_BATCH
      {
        TtlCall(s, dates[i - 1], s', last);
      }
    }
  }

  /** While the date stands still the count is exact. */
  lemma {:induction false} TtlDrainsExactly(states: seq<Sys>, dates: seq<int>, date: int, i: nat)
    requires TtlCalls(states, dates) && i < |states| && forall j | 0 <= j < |dates| :: dates[j] == date
    requires WellKeyed(states[0].shelf.docs) && !states[0].keys.running
    ensures WellKeyed(states[i].shelf.docs) && !states[i].keys.running
    ensures var due := |Overdue(states[0].shelf.docs, date)|;
            |Overdue(states[i].shelf.docs, date)| == due - Min(due, i * 10000)
  {
    if i == 0 {
    } else {
      TtlDrainsExactly(states, dates, date, i - 1);
      assert EvictsExpired(states[i - 1], dates[i - 1], states[i]);
      var victims :| ExpiredStep(states[i - 1], date, victims, states[i]);
      TtlEviction(states[i - 1], date, victims, states[i]);
      hide ExpiredStep;
      hide Overdue;
    }
  }

  lemma FewerDue(docs: Docs, date: int, later: int)
    requires date <= later
    ensures Overdue(docs, date) <= Overdue(docs, later)
    ensures |Overdue(docs, date)| <= |Overdue(docs, later)|
  {
    SubsetSize(Overdue(docs, date), Overdue(docs, later));
  }

  lemma FewerLeft(docs: Docs, docs': Docs, date: int)
    requires docs'.Keys <= docs.Keys && forall k | k in docs' :: docs'[k] == docs[k]
    ensures Overdue(docs', date) <= Overdue(docs, date)
  {
  }

  // ---------- max elements ----------

  function InQueue(docs: Docs, queue: string): set<string> {
    set k | k in docs && docs[k].queue == queue
  }

  function ExpiredIn(docs: Docs, queue: string, now: int): set<string> {
    set k | k in docs && docs[k].queue == queue && !Live(docs[k], now)
  }

  /** Max-elements eviction removes min(excess, live) documents of the queue, the soonest to
      expire among the live ones, and touches no other queue. */
  lemma ExceedingEviction(s: Sys, queue: string, maxElements: int, now: int, victims: seq<Doc>, s': Sys)
    requires WellKeyed(s.shelf.docs) && !s.keys.running && queue != "" && 0 < maxElements < CountOf(s.shelf.docs, queue)
    requires ExceedingStep(s, queue, maxElements, now, victims, s')
    ensures var docs, docs', total := s.shelf.docs, s'.shelf.docs, CountOf(s.shelf.docs, queue);
            var live := total - |ExpiredIn(docs, queue, now)|;
            && docs' == docs - KeysOf(victims)
            && CountOf(docs', queue) == total - Min(total - maxElements, live)
            && (forall v | v in victims :: v.queue == queue && Live(v, now) && v.id !in s'.Pool(queue))
            && (forall v, k | v in victims && k in docs' && docs'[k].queue == queue && Live(docs'[k], now) ::
                  v.expiry <= docs'[k].expiry)
            && (forall other | other != queue :: s'.Pool(other) == s.Pool(other))
            && (forall q, id | !Evicted(victims, q, id) :: SameEntry(s, q, id, s'))
            && (forall k | k in docs' :: !Evicted(victims, docs'[k].queue, docs'[k].id))
  {
    var excess := CountOf(s.shelf.docs, queue) - maxElements;
    EvictedKeys(s, victims, s');
    ExceedingCount(s.shelf.docs, queue, excess, now, victims);
    ExceedingOrder(s, queue, excess, now, victims, s');
    OthersStay(s, victims, s');
    hide Answers;
    hide EvictStep;
    hide SameEntry;
    hide KeysOf;
  }

  lemma ExceedingCount(docs: Docs, queue: string, excess: nat, now: int, victims: seq<Doc>)
    requires WellKeyed(docs) && queue != "" && excess > 0
    requires Answers(docs, now, ANY.(queue := queue), ByExpiry, excess, victims)
    ensures var total := CountOf(docs, queue);
            CountOf(docs - KeysOf(victims), queue) == total - Min(excess, total - |ExpiredIn(docs, queue, now)|)
  {
    AnswerSize(docs, now, ANY.(queue := queue), ByExpiry, excess, victims);
    LiveInQueue(docs, queue, now);
    InQueueWithout(docs, KeysOf(victims), queue);
    SubsetSize(KeysOf(victims), InQueue(docs, queue));
    CountIsSize(docs, queue);
    CountIsSize(docs - KeysOf(victims), queue);
    hide *;
  }

  lemma InQueueWithout(docs: Docs, gone: set<string>, queue: string)
    ensures InQueue(docs - gone, queue) == InQueue(docs, queue) - gone
  {
  }

  lemma CountIsSize(docs: Docs, queue: string)
    ensures CountOf(docs, queue) == |InQueue(docs, queue)|
  {
  }

  lemma ExceedingOrder(s: Sys, queue: string, excess: nat, now: int, victims: seq<Doc>, s': Sys)
    requires WellKeyed(s.shelf.docs) && queue != "" && excess > 0 && EvictStep(s, victims, s')
    requires Answers(s.shelf.docs, now, ANY.(queue := queue), ByExpiry, excess, victims)
    ensures forall v | v in victims :: v.queue == queue && Live(v, now) && v.id !in s'.Pool(queue)
    ensures forall v, k | v in victims && k in s.shelf.docs - KeysOf(victims)
                          && s.shelf.docs[k].queue == queue && Live(s.shelf.docs[k], now) ::
              v.expiry <= s.shelf.docs[k].expiry
    ensures forall other | other != queue :: s'.Pool(other) == s.Pool(other)
  {
    VictimsFirst(s.shelf.docs, now, ANY.(queue := queue), excess, victims);
    VictimsUncached(s, victims, s');
    OthersUntouched(s, queue, victims, s');
  }

  lemma LiveInQueue(docs: Docs, queue: string, now: int)
    requires queue != ""
    ensures var f := ANY.(queue := queue);
            && SelectedKeys(docs, f, now) <= InQueue(docs, queue)
            && |SelectedKeys(docs, f, now)| == |InQueue(docs, queue)| - |ExpiredIn(docs, queue, now)|
  {
    var f := ANY.(queue := queue);
    assert SelectedKeys(docs, f, now) == InQueue(docs, queue) - ExpiredIn(docs, queue, now);
    SubsetSize(ExpiredIn(docs, queue, now), InQueue(docs, queue));
  }

  lemma OthersUntouched(s: Sys, queue: string, victims: seq<Doc>, s': Sys)
    requires EvictStep(s, victims, s') && forall v | v in victims :: v.queue == queue
    ensures forall other | other != queue :: s'.Pool(other) == s.Pool(other)
  {
    forall other, id | other != queue ensures !Evicted(victims, other, id) {
      forall i | 0 <= i < |victims| ensures victims[i].queue == queue { assert victims[i] in victims; }
    }
  }

  /** The queue ends with min(total, limit) documents exactly when it fits already or holds at
      most `limit` expired ones, because expired documents are counted but never evicted here. */
  lemma LimitIsMetIff(s: Sys, queue: string, maxElements: int, now: int, victims: seq<Doc>, s': Sys)
    requires WellKeyed(s.shelf.docs) && !s.keys.running && queue != "" && maxElements > 0
    requires ExceedingStep(s, queue, maxElements, now, victims, s')
    ensures var total := CountOf(s.shelf.docs, queue);
            CountOf(s'.shelf.docs, queue) == Min(total, maxElements)
            <==> total <= maxElements || |ExpiredIn(s.shelf.docs, queue, now)| <= maxElements
  {
    if CountOf(s.shelf.docs, queue) > maxElements {
      ExceedingEviction(s, queue, maxElements, now, victims, s');
    }
  }
}
