/** Two runs from an empty server that lose a live message, one for each guard of `NoLossIff`. */
module LostMessages {
  import opened Score
  import opened Pools
  import opened StorageModel
  import opened RecoveryKeys
  import opened System
  import opened NoLoss
  import opened SmallSteps

  // ---------- a colliding key ----------

  const OLD := Doc("a:b", "c", 1, 7.0, 5, false, 0, "")
  const KEY := "a:b:c"
  const SCANNED := Keys(false, Finished, RecoveryKeys.At(1))
  const FIRST := AddItem("a:b", "c", 7.0, 5, false, "")
  const SECOND := AddItem("a", "b:c", 7.0, 20, false, "")

  const ADDED := Sys(Shelf(map[KEY := OLD], 1), map["a:b" := map["c" := Active(7.0)]], NO_KEYS)
  const RECOVERED := ADDED.(keys := SCANNED)
  const PURGED := Sys(Shelf(map[KEY := OLD], 1), map["a:b" := map[]], SCANNED)
  const REVIVED := Sys(Shelf(map[KEY := OLD.(expiry := 20)], 1),
    map["a:b" := map[], "a" := map["b:c" := Active(7.0)]], SCANNED)

  lemma SameKey()
    ensures JoinKey("a:b", "c") == KEY == JoinKey("a", "b:c") && KeyOf(OLD) == KEY
  {
  }

  lemma OnlyOld(d: Doc)
    ensures Stored(map[KEY := OLD], d) <==> d == OLD
  {
    SameKey();
  }

  lemma FirstIsAdded()
    ensures Next(EMPTY, Action.Add([FIRST]), 0, ADDED)
  {
    SameKey();
    AddOne(EMPTY, FIRST, 0, ADDED);
  }

  lemma OldAnswers(now: int, f: Filter, sort: Sort, limit: nat)
    requires Selected(OLD, f, now) && limit > 0
    ensures Answers(map[KEY := OLD], now, f, sort, limit, [OLD])
  {
    forall d { OnlyOld(d); }
  }

  lemma ScanRuns()
    ensures Next(ADDED, Action.Recover(0), 0, RECOVERED)
  {
    var keys := Started(NO_KEYS, [OLD]);
    OldAnswers(0, ANY, ByIdDescending, 1);
    OldAnswers(0, ScanFilter(keys), ByIdAscending, RECOVERY_BATCH);
    var recalled := QueuedMsg("a:b", "c", 7.0);
    assert Recalled([OLD]) == [recalled];
    forall queue ensures Fills(ADDED.Pool(queue), Part(Recalled([OLD]), queue), RECOVERED.Pool(queue)) {
      InsertedOne(ADDED.Pool(queue), recalled, queue);
      InsertedFills(ADDED.Pool(queue), Part(Recalled([OLD]), queue));
    }
    assert ScanStep(ADDED, keys, 0, [OLD], RECOVERED);
    assert RecoverStep(ADDED, 0, 0, [OLD], [OLD], RECOVERED);
  }

  const PULL := Pools.Pull(1, None, None, 300000.0)

  lemma PullPurges()
    ensures Next(RECOVERED, Action.Pull("a:b", PULL, 10), 10, PURGED)
  {
    var t, taken := RECOVERED.Pool("a:b"), map["c" := Processing(300000.0)];
    assert t == map["c" := Active(7.0)];
    assert Step(t, PULL, ["c"], taken);
    forall d { OnlyOld(d); }
    assert !Found(RECOVERED.shelf.docs, "a:b", "c", 10, 10);
    assert Purged(RECOVERED.shelf.docs, "a:b", ["c"], 10, 10) == {"c"};
    assert PURGED.Pool("a:b") == taken - {"c"};
    assert ReconcileStep(RECOVERED, "a:b", PULL, ["c"], 10, 10, PURGED);
  }

  lemma SecondRevives()
    ensures Next(PURGED, Action.Add([SECOND]), 10, REVIVED)
  {
    SameKey();
    AddOne(PURGED, SECOND, 10, REVIVED);
  }

  /** Adding (a, b:c) after (a:b, c) has expired and been purged renews the stored document of
      (a:b, c), which no pool holds: recovery is over, so the live message is lost. */
  lemma CollidingKeysLoseAMessage() returns (run: Run)
    ensures run.Valid() && |run.actions| == 4 && !CoveredAt(run, 4)
    ensures run.actions == [Action.Add([FIRST]), Action.Recover(0), Action.Pull("a:b", PULL, 10), Action.Add([SECOND])]
  {
    FirstIsAdded();
    ScanRuns();
    PullPurges();
    SecondRevives();
    hide Next;
    run := Run([EMPTY, ADDED, RECOVERED, PURGED, REVIVED],
               [Action.Add([FIRST]), Action.Recover(0), Action.Pull("a:b", PULL, 10), Action.Add([SECOND])],
               [0, 0, 10, 10]);
    var d := OLD.(expiry := 20);
    SameKey();
    assert Stored(REVIVED.shelf.docs, d) && Live(d, 10) && !Covers(REVIVED, d);
  }

  // ---------- an Add that fails half way ----------

  const VALID := AddItem("q", "x", 7.0, 20, false, "")
  const NAMELESS := AddItem("q", "", 7.0, 20, false, "")
  const KEPT := Doc("q", "x", 1, 7.0, 20, false, 0, "")
  const IDLE := EMPTY.(keys := Keys(false, Finished, Unset))
  const STRANDED := IDLE.(shelf := Shelf(map["q:x" := KEPT], 1))

  lemma NothingToScan()
    ensures Next(EMPTY, Action.Recover(0), 0, IDLE)
  {
    assert Answers(EMPTY.shelf.docs, 0, ANY, ByIdDescending, 1, []);
    assert RecoverStep(EMPTY, 0, 0, [], [], IDLE);
  }

  lemma HalfIsStored()
    ensures Next(IDLE, Action.Add([VALID, NAMELESS]), 1, STRANDED)
  {
    var items := [VALID, NAMELESS];
    assert !Addable(items[1]);
    assert items[1..] == [NAMELESS];
    assert Accepted(items) == 1 && items[..1] == [VALID];
    assert ToMessages([VALID], 1) == [ToMessage(VALID, 1)];
    PutSingle(IDLE.shelf, ToMessage(VALID, 1));
    assert JoinKey("q", "x") == "q:x";
  }

  /** A batch whose second message has no id: the first is stored and live, but in no pool, and
      recovery is over. */
  lemma FailedAddLosesAMessage() returns (run: Run)
    ensures run.Valid() && |run.actions| == 2 && !CoveredAt(run, 2)
    ensures run.actions == [Action.Recover(0), Action.Add([VALID, NAMELESS])]
  {
    NothingToScan();
    HalfIsStored();
    hide Next;
    run := Run([EMPTY, IDLE, STRANDED], [Action.Recover(0), Action.Add([VALID, NAMELESS])], [0, 1]);
    assert KeyOf(KEPT) == "q:x";
    assert Stored(STRANDED.shelf.docs, KEPT) && Live(KEPT, 1) && !Covers(STRANDED, KEPT);
  }
}
