/** A recovery batch run again after one of its documents has expired: 4001 documents are stored,
    the first expires between the two runs, and the second run brings in document 4001. */
module RefilledBatch {
  import opened Pools
  import opened StorageModel
  import opened RecoveryKeys
  import opened System
  import opened RecoveryRuns
  import opened NoLoss

  const N: nat := RECOVERY_BATCH + 1

  function Name(i: nat): string {
    seq(i, _ => 'x')
  }

  /** Document i of queue q; the first one expires at 5, the others at 100. */
  function Num(i: nat): Doc {
    Doc("q", Name(i), i, 0.0, if i == 1 then 5 else 100, false, 0, "")
  }

  function Key(i: nat): string {
    JoinKey("q", Name(i))
  }

  lemma KeyLength(i: nat)
    ensures |Key(i)| == i + 2 && KeyOf(Num(i)) == Key(i)
  {
  }

  function KeysTo(n: nat): set<string> {
    set i: nat | 1 <= i <= n :: Key(i)
  }

  /** The first n documents. */
  function DocsTo(n: nat): Docs {
    map k | k in KeysTo(n) && |k| >= 2 :: Num(|k| - 2)
  }

  function AllDocs(): Docs {
    DocsTo(N)
  }

  lemma StoredIff(d: Doc)
    ensures Stored(AllDocs(), d) <==> exists i: nat :: 1 <= i <= N && d == Num(i)
  {
    hide Name;
    hide JoinKey;
    if Stored(AllDocs(), d) {
      var i: nat :| 1 <= i <= N && Key(i) == KeyOf(d);
      KeyLength(i);
      assert d == Num(i);
    }
    if i: nat :| 1 <= i <= N && d == Num(i) {
      KeyLength(i);
      assert Key(i) in KeysTo(N);
    }
  }

  lemma ShelfIsSound()
    ensures ShelfInv(Shelf(AllDocs(), N))
  {
    forall k | k in AllDocs() ensures KeyOf(AllDocs()[k]) == k && Sound(Shelf(AllDocs(), N), AllDocs()[k]) {
      var i: nat :| 1 <= i <= N && Key(i) == k;
      KeyLength(i);
    }
    forall k, l | k in AllDocs() && l in AllDocs() && k != l
      ensures AllDocs()[k].internalId != AllDocs()[l].internalId
    {
      var i: nat :| 1 <= i <= N && Key(i) == k;
      var j: nat :| 1 <= j <= N && Key(j) == l;
      KeyLength(i);
      KeyLength(j);
    }
  }

  /** The batch that starts at document `from`. */
  function Batch(from: nat): seq<Doc> {
    seq(RECOVERY_BATCH, j requires 0 <= j < RECOVERY_BATCH => Num(from + j))
  }

  lemma InBatch(from: nat, i: nat)
    ensures Num(i) in Batch(from) <==> from <= i < from + RECOVERY_BATCH
  {
    if from <= i < from + RECOVERY_BATCH {
      assert Batch(from)[i - from] == Num(i);
    }
    if Num(i) in Batch(from) {
      var j :| 0 <= j < |Batch(from)| && Batch(from)[j] == Num(i);
      assert Num(from + j).internalId == Num(i).internalId;
    }
  }

  lemma BatchQueue(from: nat, d: Doc)
    requires d in Batch(from)
    ensures d.queue == "q"
  {
    var j :| 0 <= j < |Batch(from)| && Batch(from)[j] == d;
    assert Batch(from)[j] == Num(from + j);
  }

  const TARGETED := Keys(true, Unset, RecoveryKeys.At(N))

  lemma BatchAnswers(now: int, from: nat)
    requires (now == 0 && from == 1) || (now == 10 && from == 2)
    ensures Answers(AllDocs(), now, ScanFilter(TARGETED), ByIdAscending, RECOVERY_BATCH, Batch(from))
  {
    var docs, f, b := AllDocs(), ScanFilter(TARGETED), Batch(from);
    forall d | d in b ensures Stored(docs, d) && Selected(d, f, now) {
      var j :| 0 <= j < |b| && b[j] == d;
      assert d == Num(from + j);
      StoredIff(d);
    }
    forall d, r | Stored(docs, d) && Selected(d, f, now) && d !in b && r in b ensures Leq(ByIdAscending, r, d) {
      LeftOutLast(now, from, d, r);
    }
    BatchSorted(from);
    hide AllDocs;
    hide Selected;
    hide Batch;
    hide Stored;
    hide Leq;
    assert |b| == RECOVERY_BATCH;
  }

  lemma LeftOutLast(now: int, from: nat, d: Doc, r: Doc)
    requires (now == 0 && from == 1) || (now == 10 && from == 2)
    requires Stored(AllDocs(), d) && Live(d, now) && d !in Batch(from) && r in Batch(from)
    ensures r.internalId <= d.internalId
  {
    StoredIff(d);
    var i: nat :| 1 <= i <= N && d == Num(i);
    InBatch(from, i);
    var j :| 0 <= j < |Batch(from)| && Batch(from)[j] == r;
    assert r == Num(from + j);
  }

  lemma BatchSorted(from: nat)
    ensures |Batch(from)| == RECOVERY_BATCH
    ensures DistinctDocs(Batch(from)) && SortedBy(ByIdAscending, Batch(from))
  {
    var b := Batch(from);
    forall j | 0 <= j < |b| ensures b[j].internalId == from + j { assert b[j] == Num(from + j); }
  }

  lemma LastAnswers()
    ensures Answers(AllDocs(), 0, ANY, ByIdDescending, 1, [Num(N)])
  {
    StoredIff(Num(N));
    forall d | Stored(AllDocs(), d) ensures Leq(ByIdDescending, Num(N), d) {
      StoredIff(d);
    }
  }

  function Filled(s: Sys, batch: seq<Doc>): Sys {
    s.(cache := map["q" := Inserted(s.Pool("q"), Part(Recalled(batch), "q"))], keys := AfterBatch(TARGETED, batch))
  }

  lemma OnlyQueue(s: Sys, from: nat, queue: string)
    requires s.cache.Keys <= {"q"}
    ensures Fills(s.Pool(queue), Part(Recalled(Batch(from)), queue), Filled(s, Batch(from)).Pool(queue))
  {
    InsertedFills(s.Pool(queue), Part(Recalled(Batch(from)), queue));
    if queue != "q" {
      var latest := Latest(Part(Recalled(Batch(from)), queue));
      forall id ensures id !in latest {
        RecalledIff(Batch(from), queue, id);
        if d :| d in Batch(from) && d.queue == queue && d.id == id {
          BatchQueue(from, d);
        }
      }
      assert latest == map[];
    }
  }

  // ---------- how the documents came in ----------

  function Item(i: nat): AddItem {
    AddItem("q", Name(i), 0.0, if i == 1 then 5 else 100, false, "")
  }

  function Items(n: nat): seq<AddItem> {
    seq(n, i requires 0 <= i < n => Item(i + 1))
  }

  lemma DocsNext(n: nat)
    ensures Key(n + 1) !in DocsTo(n) && DocsTo(n + 1) == DocsTo(n)[Key(n + 1) := Num(n + 1)]
  {
    hide JoinKey;
    hide Name;
    forall i: nat { KeyLength(i); }
    forall k ensures k in KeysTo(n + 1) <==> k in KeysTo(n) || k == Key(n + 1) {
      if k in KeysTo(n + 1) {
        var i: nat :| 1 <= i <= n + 1 && Key(i) == k;
      }
    }
    hide Key;
  }

  lemma {:induction false} ItemsStored(n: nat)
    ensures Put(EMPTY.shelf, ToMessages(Items(n), 0)) == Shelf(DocsTo(n), n)
  {
    var messages := ToMessages(Items(n), 0);
    if n == 0 {
      assert DocsTo(0) == map[];
    } else {
      ItemsStored(n - 1);
      DocsNext(n - 1);
      assert messages[..n - 1] == ToMessages(Items(n - 1), 0);
      assert messages[n - 1] == NewMessage("q", Name(n), 0.0, if n == 1 then 5 else 100, false, "");
      hide DocsTo;
      hide Name;
    }
  }

  lemma {:induction false} ItemsQueue(messages: seq<QueuedMsg>, queue: string)
    requires queue != "q" && forall i | 0 <= i < |messages| :: messages[i].queue == "q"
    ensures Part(messages, queue) == []
  {
    if messages == [] {
    } else {
      ItemsQueue(messages[..|messages| - 1], queue);
    }
  }

  function Added(): Sys {
    Sys(Shelf(AllDocs(), N), map["q" := Inserted(map[], Part(Queued(ToMessages(Items(N), 0)), "q"))], NO_KEYS)
  }

  lemma OnlyFilled(queue: string)
    ensures Added().Pool(queue) == Inserted(map[], Part(Queued(ToMessages(Items(N), 0)), queue))
  {
    hide AllDocs;
    if queue != "q" {
      ItemsQueue(Queued(ToMessages(Items(N), 0)), queue);
      assert Latest([]) == map[];
    }
    hide Part;
  }

  lemma ItemsAdded()
    ensures Next(EMPTY, Action.Add(Items(N)), 0, Added())
  {
    hide AllDocs;
    hide Inserted;
    hide Put;
    hide Part;
    hide Items;
    hide AddStep;
    hide AllAddable;
    ItemsNamed();
    ItemsStored(N);
    AllIsDocsTo();
    forall queue { OnlyFilled(queue); }
    hide Queued;
    InsertedIsAddStep(EMPTY, ToMessages(Items(N), 0), Added());
  }

  lemma AllIsDocsTo()
    ensures AllDocs() == DocsTo(N)
  {
  }

  lemma ItemsNamed()
    ensures AllAddable(Items(N))
  {
    assert forall i: nat | 1 <= i :: |Name(i)| == i;
  }

  lemma FirstRecovery(s: Sys, s1: Sys)
    requires s == Sys(Shelf(AllDocs(), N), map[], NO_KEYS) && s1 == Filled(s, Batch(1))
    ensures Next(s, Action.Recover(0), 0, s1) && ScanStep(s, TARGETED, 0, Batch(1), s1)
  {
    LastAnswers();
    BatchAnswers(0, 1);
    hide Inserted;
    hide Fills;
    hide AllDocs;
    hide Answers;
    forall queue { OnlyQueue(s, 1, queue); }
    assert Started(NO_KEYS, [Num(N)]) == TARGETED;
    assert ScanStep(s, TARGETED, 0, Batch(1), s1);
    assert RecoverStep(s, 0, 0, [Num(N)], Batch(1), s1);
  }

  lemma SecondScan(s1: Sys, s2: Sys)
    requires s1.shelf == Shelf(AllDocs(), N) && s1.cache.Keys <= {"q"} && s2 == Filled(s1, Batch(2))
    ensures ScanStep(s1, TARGETED, 10, Batch(2), s2)
  {
    BatchAnswers(10, 2);
    hide Inserted;
    hide Fills;
    hide AllDocs;
    hide Answers;
    forall queue { OnlyQueue(s1, 2, queue); }
  }

  /** 4001 messages are added and the cache is lost. The first recovery call does not save its
      breakpoint, and the batch runs again at time 10. */
  lemma RepeatedBatchAddsOne() returns (run: Run, s2: Sys)
    ensures run.Valid()
    ensures run.actions == [Action.Add(Items(N)), Action.WipeCache, Action.Recover(0)] && run.times == [0, 0, 0]
    ensures ScanStep(run.states[2], TARGETED, 0, Batch(1), run.states[3])
    ensures ScanStep(run.states[3], TARGETED, 10, Batch(2), s2)
    ensures !run.states[3].Cached(Num(N)) && s2.Cached(Num(N))
  {
    hide Next;
    hide ScanStep;
    hide AllDocs;
    hide Inserted;
    hide Batch;
    hide Items;
    hide Part;
    hide Added;
    hide Recalled;
    var s := Sys(Shelf(AllDocs(), N), map[], NO_KEYS);
    var s1 := Filled(s, Batch(1));
    s2 := Filled(s1, Batch(2));
    ItemsAdded();
    CacheIsLost(s);
    FirstRecovery(s, s1);
    SecondScan(s1, s2);
    LastIsCachedLater(s, s1, s2);
    hide Filled;
    hide Num;
    run := Run([EMPTY, Added(), s, s1], [Action.Add(Items(N)), Action.WipeCache, Action.Recover(0)], [0, 0, 0]);
  }

  lemma CacheIsLost(s: Sys)
    requires s == Sys(Shelf(AllDocs(), N), map[], NO_KEYS)
    ensures Next(Added(), Action.WipeCache, 0, s)
  {
    hide AllDocs;
  }

  lemma LastIsCachedLater(s: Sys, s1: Sys, s2: Sys)
    requires s == Sys(Shelf(AllDocs(), N), map[], NO_KEYS)
    requires ScanStep(s, TARGETED, 0, Batch(1), s1) && ScanStep(s1, TARGETED, 10, Batch(2), s2)
    ensures !s1.Cached(Num(N)) && s2.Cached(Num(N))
  {
    ShelfIsSound();
    StoredIff(Num(N));
    InBatch(1, N);
    InBatch(2, N);
    hide AllDocs;
    hide Stored;
    hide Batch;
    ScanFills(s, TARGETED, 0, Batch(1), s1, Num(N));
    ScanFills(s1, TARGETED, 10, Batch(2), s2, Num(N));
  }
}
