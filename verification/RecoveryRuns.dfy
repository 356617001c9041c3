/** Recovery against fixed storage: every call shrinks what is left to scan by a full batch, the
    scan ends after the calls this takes, and a repeated batch adds only what refills it. */
module RecoveryRuns {
  import opened Pools
  import opened StorageModel
  import opened RecoveryKeys
  import opened System
  import opened NoLoss

  /** The keys of the live documents in (breakpoint, target]; before the scan starts, of all live documents. */
  function Window(docs: Docs, keys: Keys, now: int): set<string> {
    set k | k in docs && Selected(docs[k], ScanFilter(keys), now)
  }

  lemma BatchIsWindowPart(docs: Docs, keys: Keys, now: int, batch: seq<Doc>)
    requires WellKeyed(docs) && Answers(docs, now, ScanFilter(keys), ByIdAscending, RECOVERY_BATCH, batch)
    ensures KeysOf(batch) <= Window(docs, keys, now) && |KeysOf(batch)| == |batch|
    ensures |batch| < RECOVERY_BATCH ==> KeysOf(batch) == Window(docs, keys, now)
  {
    AnswerSize(docs, now, ScanFilter(keys), ByIdAscending, RECOVERY_BATCH, batch);
    assert SelectedKeys(docs, ScanFilter(keys), now) == Window(docs, keys, now);
  }

  /** A full batch is a prefix of the window in scan order, so the next window is the rest. */
  lemma FullBatchAdvances(shelf: Shelf, keys: Keys, now: int, batch: seq<Doc>)
    requires ShelfInv(shelf) && Answers(shelf.docs, now, ScanFilter(keys), ByIdAscending, RECOVERY_BATCH, batch)
    requires |batch| == RECOVERY_BATCH
    ensures Window(shelf.docs, AfterBatch(keys, batch), now) == Window(shelf.docs, keys, now) - KeysOf(batch)
  {
    var docs, last := shelf.docs, batch[|batch| - 1];
    assert last in batch;
    forall k | k in docs
      ensures k in Window(docs, AfterBatch(keys, batch), now) <==> k in Window(docs, keys, now) && k !in KeysOf(batch)
    {
      var d := docs[k];
      if d in batch {
        var i :| 0 <= i < |batch| && batch[i] == d;
        assert KeyOf(batch[i]) == k;
        assert i < |batch| - 1 ==> Leq(ByIdAscending, batch[i], last);
      } else {
        assert Stored(docs, d) && KeyOf(last) != k;
        assert k !in KeysOf(batch) by {
          forall i | 0 <= i < |batch| ensures KeyOf(batch[i]) != k { assert batch[i] in batch; }
        }
        assert Selected(d, ScanFilter(keys), now) ==> Leq(ByIdAscending, last, d);
      }
    }
  }

  /** One scan takes a full batch off the window, or finishes when less than that is left. */
  lemma ScanShrinks(s: Sys, keys: Keys, now: nat, batch: seq<Doc>, s': Sys)
    requires ShelfInv(s.shelf) && !keys.scanned.Finished? && ScanStep(s, keys, now, batch, s')
    ensures var left := |Window(s.shelf.docs, keys, now)|;
            if left < RECOVERY_BATCH then s'.keys.scanned.Finished?
            else s'.keys.scanned.At? && s'.keys.running == keys.running
                 && |Window(s.shelf.docs, s'.keys, now)| == left - RECOVERY_BATCH
  {
    BatchIsWindowPart(s.shelf.docs, keys, now, batch);
    if |batch| == RECOVERY_BATCH {
      FullBatchAdvances(s.shelf, keys, now, batch);
      SubsetSize(KeysOf(batch), Window(s.shelf.docs, keys, now));
    }
  }

  /** Starting the scan aims it at all live documents. */
  lemma StartKeepsWindow(shelf: Shelf, keys: Keys, now: nat, last: seq<Doc>)
    requires ShelfInv(shelf) && MustStart(keys) && KeysInv(keys)
    requires Answers(shelf.docs, now, ANY, ByIdDescending, 1, last)
    ensures last == [] ==> Window(shelf.docs, keys, now) == {}
    ensures last != [] ==> Window(shelf.docs, Started(keys, last), now) == Window(shelf.docs, keys, now)
  {
    forall k | k in shelf.docs && Live(shelf.docs[k], now)
      ensures last != [] && shelf.docs[k].internalId <= last[0].internalId
    {
      var d := shelf.docs[k];
      assert Stored(shelf.docs, d) && Selected(d, ANY, now);
      if d !in last {
        assert last[0] in last;
        assert Leq(ByIdDescending, last[0], d);
      }
    }
  }

  /** As time goes on documents only leave the window. */
  lemma WindowShrinks(docs: Docs, keys: Keys, now: int, later: int)
    requires now <= later
    ensures Window(docs, keys, later) <= Window(docs, keys, now)
    ensures |Window(docs, keys, later)| <= |Window(docs, keys, now)|
  {
    SubsetSize(Window(docs, keys, later), Window(docs, keys, now));
  }

  /** A recovery call that reads the clock at `now` and again at `scanAt` finishes the scan, or
      takes a full batch off the window. */
  lemma RecoverShrinks(s: Sys, now: nat, scanAt: nat, last: seq<Doc>, batch: seq<Doc>, s': Sys)
    requires ShelfInv(s.shelf) && KeysInv(s.keys) && now <= scanAt && RecoverStep(s, now, scanAt, last, batch, s')
    requires !s.keys.scanned.Finished?
    ensures KeysInv(s'.keys) && s'.shelf == s.shelf
    ensures s'.keys.scanned.Finished?
            || (s'.keys.scanned.At?
                && |Window(s.shelf.docs, s'.keys, scanAt)| <= |Window(s.shelf.docs, s.keys, now)| - RECOVERY_BATCH)
    ensures now == scanAt ==>
              var left := |Window(s.shelf.docs, s.keys, now)|;
              if left < RECOVERY_BATCH then s'.keys.scanned.Finished?
              else s'.keys.scanned.At? && |Window(s.shelf.docs, s'.keys, now)| == left - RECOVERY_BATCH
  {
    hide ScanStep;
    if MustStart(s.keys) {
      StartKeepsWindow(s.shelf, s.keys, now, last);
      if last != [] {
        var keys := Started(s.keys, last);
        WindowShrinks(s.shelf.docs, keys, now, scanAt);
        ScanShrinks(s, keys, scanAt, batch, s');
        ScanKeepsKeys(s, keys, scanAt, batch, s');
      }
    } else {
      WindowShrinks(s.shelf.docs, s.keys, now, scanAt);
      ScanShrinks(s, s.keys, scanAt, batch, s');
      ScanKeepsKeys(s, s.keys, scanAt, batch, s');
    }
    hide Window;
  }

  lemma ScanKeepsKeys(s: Sys, keys: Keys, scanAt: nat, batch: seq<Doc>, s': Sys)
    requires KeysInv(keys) && keys.running && ScanStep(s, keys, scanAt, batch, s')
    ensures KeysInv(s'.keys) && s'.shelf == s.shelf
  {
  }

  /** Recovery calls one after the other against fixed storage: call i reads the clock at nows[i]
      and, for the scan, at scans[i]. */
  ghost predicate Calls(states: seq<Sys>, nows: seq<nat>, scans: seq<nat>) {
    && |states| == |nows| + 1 == |scans| + 1
    && (forall i | 0 <= i < |nows| :: nows[i] <= scans[i])
    && (forall i | 0 <= i < |nows| - 1 :: scans[i] <= nows[i + 1])
    && (forall i | 0 <= i < |nows| :: Recovers(states[i], nows[i], scans[i], states[i + 1]))
  }

  ghost predicate Recovers(s: Sys, now: nat, scanAt: nat, s': Sys) {
    exists last, batch :: RecoverStep(s, now, scanAt, last, batch, s')
  }

  /** With L live documents to scan at the first call, i calls of a clock that moves on have
      finished recovery or left at most L - 4000 i documents; so L / 4000 + 1 calls finish it. */
  lemma {:induction false} FinishesInTime(states: seq<Sys>, nows: seq<nat>, scans: seq<nat>, i: nat)
    requires Calls(states, nows, scans) && 0 < i < |states|
    requires ShelfInv(states[0].shelf) && KeysInv(states[0].keys)
    ensures var left := |Window(states[0].shelf.docs, states[0].keys, nows[0])|;
            && states[i].shelf == states[0].shelf && KeysInv(states[i].keys)
            && (states[i].keys.scanned.Finished?
                || |Window(states[0].shelf.docs, states[i].keys, scans[i - 1])| <= left - i * 4000)
            && (i * 4000 > left ==> states[i].keys.scanned.Finished?)
  {
    var s, s' := states[i - 1], states[i];
    if i > 1 {
      FinishesInTime(states, nows, scans, i - 1);
      WindowShrinks(s.shelf.docs, s.keys, scans[i - 2], nows[i - 1]);
    }
    assert Recovers(s, nows[i - 1], scans[i - 1], s');
    var last, batch :| RecoverStep(s, nows[i - 1], scans[i - 1], last, batch, s');
    if !s.keys.scanned.Finished? {
      RecoverShrinks(s, nows[i - 1], scans[i - 1], last, batch, s');
    }
    hide Window;
    hide RecoverStep;
  }

  /** Recovery restores the cache: after enough calls every live document is in a pool. */
  lemma RecoveryRestoresCache(states: seq<Sys>, nows: seq<nat>, scans: seq<nat>, i: nat, d: Doc)
    requires Calls(states, nows, scans) && 0 < i < |states| && Inv(states[0], nows[0])
    requires i * 4000 > |Window(states[0].shelf.docs, states[0].keys, nows[0])|
    requires Stored(states[0].shelf.docs, d) && Live(d, scans[i - 1])
    ensures states[i].Cached(d)
  {
    FinishesInTime(states, nows, scans, i);
    CallsKeep(states, nows, scans, i);
    assert Covers(states[i], d);
  }

  lemma {:induction false} CallsKeep(states: seq<Sys>, nows: seq<nat>, scans: seq<nat>, i: nat)
    requires Calls(states, nows, scans) && 0 < i < |states| && Inv(states[0], nows[0])
    ensures Inv(states[i], scans[i - 1])
  {
    hide Inv;
    hide RecoverStep;
    if i > 1 {
      CallsKeep(states, nows, scans, i - 1);
      LaterInv(states[i - 1], scans[i - 2], scans[i - 1]);
    } else {
      LaterInv(states[0], nows[0], scans[0]);
    }
    assert Recovers(states[i - 1], nows[i - 1], scans[i - 1], states[i]);
    var last, batch :| RecoverStep(states[i - 1], nows[i - 1], scans[i - 1], last, batch, states[i]);
    RecoverKeeps(states[i - 1], nows[i - 1], scans[i - 1], last, batch, states[i], scans[i - 1]);
  }

  ghost predicate AllAt(times: seq<nat>, now: nat) {
    forall i | 0 <= i < |times| :: times[i] == now
  }

  /** While nothing expires the count is exact: with L live documents to scan, recovery is
      finished exactly from call L / 4000 + 1 on, also when L is a multiple of 4000. */
  lemma {:induction false} FinishesExactly(states: seq<Sys>, nows: seq<nat>, scans: seq<nat>, now: nat, i: nat)
    requires Calls(states, nows, scans) && AllAt(nows, now) && AllAt(scans, now) && i < |states|
    requires ShelfInv(states[0].shelf) && KeysInv(states[0].keys) && !states[0].keys.scanned.Finished?
    ensures var left := |Window(states[0].shelf.docs, states[0].keys, now)|;
            && states[i].shelf == states[0].shelf && KeysInv(states[i].keys)
            && (states[i].keys.scanned.Finished? <==> i * 4000 > left)
            && (i * 4000 <= left ==>
                  |Window(states[0].shelf.docs, states[i].keys, now)| == left - i * 4000)
  {
    if i == 0 {
    } else {
      FinishesExactly(states, nows, scans, now, i - 1);
      assert Recovers(states[i - 1], nows[i - 1], scans[i - 1], states[i]);
      var last, batch :| RecoverStep(states[i - 1], now, now, last, batch, states[i]);
      if !states[i - 1].keys.scanned.Finished? {
        RecoverShrinks(states[i - 1], now, now, last, batch, states[i]);
      }
    }
    hide Window;
    hide RecoverStep;
  }

  // ---------- a lost breakpoint write ----------

  /** Whatever comes before an answered document is answered too. */
  lemma EarlierIsAnswered(shelf: Shelf, keys: Keys, now: int, b: seq<Doc>, d: Doc, x: Doc)
    requires ShelfInv(shelf) && d in b && Stored(shelf.docs, x) && Selected(x, ScanFilter(keys), now)
    requires Answers(shelf.docs, now, ScanFilter(keys), ByIdAscending, RECOVERY_BATCH, b)
    requires x.internalId < d.internalId
    ensures x in b && KeyOf(x) in KeysOf(b)
  {
    assert x !in b ==> Leq(ByIdAscending, d, x);
    var j :| 0 <= j < |b| && b[j] == x;
    assert KeyOf(b[j]) == KeyOf(x);
  }

  /** A document left out of an answer comes after all of it. */
  lemma LeftOutIsLater(shelf: Shelf, keys: Keys, now: int, a: seq<Doc>, d: Doc, i: nat)
    requires ShelfInv(shelf) && d !in a && Stored(shelf.docs, d) && Selected(d, ScanFilter(keys), now) && i < |a|
    requires Answers(shelf.docs, now, ScanFilter(keys), ByIdAscending, RECOVERY_BATCH, a)
    ensures |a| == RECOVERY_BATCH && a[i].internalId < d.internalId
    ensures Stored(shelf.docs, a[i]) && Selected(a[i], ScanFilter(keys), now) && KeyOf(a[i]) != KeyOf(d)
  {
    assert a[i] in a;
    assert Stored(shelf.docs, a[i]);
    assert Leq(ByIdAscending, a[i], d);
  }

  /** The live documents of the window numbered up to n. */
  function UpTo(docs: Docs, keys: Keys, now: int, n: int): set<string> {
    set k | k in docs && Selected(docs[k], ScanFilter(keys), now) && docs[k].internalId <= n
  }

  /** A batch holds exactly the documents with at most 4000 documents of the window up to them. */
  lemma InBatchIff(shelf: Shelf, keys: Keys, now: int, b: seq<Doc>, d: Doc)
    requires ShelfInv(shelf) && Stored(shelf.docs, d) && Selected(d, ScanFilter(keys), now)
    requires Answers(shelf.docs, now, ScanFilter(keys), ByIdAscending, RECOVERY_BATCH, b)
    ensures d in b <==> |UpTo(shelf.docs, keys, now, d.internalId)| <= 4000
  {
    var docs, upTo := shelf.docs, UpTo(shelf.docs, keys, now, d.internalId);
    BatchIsWindowPart(docs, keys, now, b);
    if d in b {
      forall k | k in upTo ensures k in KeysOf(b) {
        if k == KeyOf(d) {
          KeysInAnswer(docs, b, k);
        } else {
          EarlierIsAnswered(shelf, keys, now, b, d, docs[k]);
        }
      }
      SubsetSize(upTo, KeysOf(b));
    } else {
      forall i | 0 <= i < |b| ensures KeyOf(b[i]) in upTo && KeyOf(b[i]) != KeyOf(d) && |b| == RECOVERY_BATCH {
        LeftOutIsLater(shelf, keys, now, b, d, i);
      }
      NonemptyUnlessComplete(docs, now, ScanFilter(keys), b, d);
      SubsetSize(KeysOf(b) + {KeyOf(d)}, upTo);
    }
  }

  lemma NonemptyUnlessComplete(docs: Docs, now: int, f: Filter, b: seq<Doc>, d: Doc)
    requires Answers(docs, now, f, ByIdAscending, RECOVERY_BATCH, b)
    requires Stored(docs, d) && Selected(d, f, now) && d !in b
    ensures |b| == RECOVERY_BATCH
  {
  }

  /** The documents of a batch that have expired by `later`. */
  function ExpiredOf(docs: Docs, a: seq<Doc>, later: int): set<string> {
    set k | k in docs && k in KeysOf(a) && !Live(docs[k], later)
  }

  /** The documents still live at `later` that the window holds after the batch, numbered up to n. */
  function Behind(docs: Docs, keys: Keys, later: int, a: seq<Doc>, n: int): set<string>
    requires a != []
  {
    set k | k in docs && Selected(docs[k], ScanFilter(keys), later) && a[|a| - 1].internalId < docs[k].internalId <= n
  }

  /** The batch was full, and the document is close enough behind it to take the place of one of
      its documents that has expired by `later`. */
  ghost predicate Refills(docs: Docs, keys: Keys, a: seq<Doc>, later: int, d: Doc) {
    && |a| == 4000 && Selected(d, ScanFilter(keys), later) && a[|a| - 1].internalId < d.internalId
    && |Behind(docs, keys, later, a, d.internalId)| <= |ExpiredOf(docs, a, later)|
  }

  /** The batch is in ascending order, so its last document has the highest number. */
  lemma LastIsHighest(shelf: Shelf, keys: Keys, now: int, a: seq<Doc>, i: nat)
    requires Answers(shelf.docs, now, ScanFilter(keys), ByIdAscending, RECOVERY_BATCH, a) && i < |a|
    ensures a[i].internalId <= a[|a| - 1].internalId
  {
    assert i < |a| - 1 ==> Leq(ByIdAscending, a[i], a[|a| - 1]);
  }

  lemma UpToParts(shelf: Shelf, keys: Keys, now: int, a: seq<Doc>, later: int, d: Doc)
    requires ShelfInv(shelf) && now <= later && |a| == RECOVERY_BATCH && a[|a| - 1].internalId < d.internalId
    requires Answers(shelf.docs, now, ScanFilter(keys), ByIdAscending, RECOVERY_BATCH, a)
    ensures UpTo(shelf.docs, keys, later, d.internalId)
            == (KeysOf(a) - ExpiredOf(shelf.docs, a, later)) + Behind(shelf.docs, keys, later, a, d.internalId)
    ensures KeysOf(a) !! Behind(shelf.docs, keys, later, a, d.internalId)
  {
    var docs := shelf.docs;
    forall k | k in docs
      ensures k in UpTo(docs, keys, later, d.internalId)
              <==> (k in KeysOf(a) && Live(docs[k], later)) || k in Behind(docs, keys, later, a, d.internalId)
      ensures k in KeysOf(a) ==> docs[k].internalId <= a[|a| - 1].internalId
    {
      KeysInAnswer(docs, a, k);
      assert Stored(docs, docs[k]);
      if docs[k] in a {
        var i :| 0 <= i < |a| && a[i] == docs[k];
        LastIsHighest(shelf, keys, now, a, i);
      } else if Selected(docs[k], ScanFilter(keys), later) {
        LeftOutIsLater(shelf, keys, now, a, docs[k], |a| - 1);
      }
    }
    forall k | k in KeysOf(a) ensures k in docs { BatchIsWindowPart(docs, keys, now, a); }
  }

  /** What a scan repeated at `later` brings in on top of the first batch. */
  lemma RefillIff(shelf: Shelf, keys: Keys, now: int, a: seq<Doc>, later: int, b: seq<Doc>, d: Doc)
    requires ShelfInv(shelf) && now <= later && Stored(shelf.docs, d)
    requires Answers(shelf.docs, now, ScanFilter(keys), ByIdAscending, RECOVERY_BATCH, a)
    requires Answers(shelf.docs, later, ScanFilter(keys), ByIdAscending, RECOVERY_BATCH, b)
    ensures d in b && d !in a <==> Refills(shelf.docs, keys, a, later, d)
  {
    if Selected(d, ScanFilter(keys), later) {
      if d in a {
        var i :| 0 <= i < |a| && a[i] == d;
        LastIsHighest(shelf, keys, now, a, i);
      } else {
        NonemptyUnlessComplete(shelf.docs, now, ScanFilter(keys), a, d);
        LeftOutIsLater(shelf, keys, now, a, d, |a| - 1);
        InBatchIff(shelf, keys, later, b, d);
        CountUpTo(shelf, keys, now, a, later, d);
      }
    }
  }

  lemma CountUpTo(shelf: Shelf, keys: Keys, now: int, a: seq<Doc>, later: int, d: Doc)
    requires ShelfInv(shelf) && now <= later && |a| == RECOVERY_BATCH && a[|a| - 1].internalId < d.internalId
    requires Answers(shelf.docs, now, ScanFilter(keys), ByIdAscending, RECOVERY_BATCH, a)
    ensures |UpTo(shelf.docs, keys, later, d.internalId)|
            == RECOVERY_BATCH - |ExpiredOf(shelf.docs, a, later)| + |Behind(shelf.docs, keys, later, a, d.internalId)|
  {
    UpToParts(shelf, keys, now, a, later, d);
    BatchIsWindowPart(shelf.docs, keys, now, a);
    SubsetSize(ExpiredOf(shelf.docs, a, later), KeysOf(a));
    assert (KeysOf(a) - ExpiredOf(shelf.docs, a, later)) !! Behind(shelf.docs, keys, later, a, d.internalId);
  }

  // ---------- what the pools see of a repeated batch ----------

  lemma RecalledIff(batch: seq<Doc>, queue: string, id: string)
    ensures id in Latest(Part(Recalled(batch), queue)) <==> exists d :: d in batch && d.queue == queue && d.id == id
  {
    if id in Latest(Part(Recalled(batch), queue)) {
      var i := PartComesFrom(Recalled(batch), queue, id);
      assert batch[i] in batch;
    }
    if d :| d in batch && d.queue == queue && d.id == id {
      var i :| 0 <= i < |batch| && batch[i] == d;
      PartHolds(Recalled(batch), i);
    }
  }

  lemma ScanFills(s: Sys, keys: Keys, now: nat, batch: seq<Doc>, s': Sys, d: Doc)
    requires ShelfInv(s.shelf) && ScanStep(s, keys, now, batch, s') && Stored(s.shelf.docs, d)
    ensures s'.Cached(d) <==> s.Cached(d) || d in batch
  {
    RecalledIff(batch, d.queue, d.id);
    if x :| x in batch && x.queue == d.queue && x.id == d.id {
      assert Stored(s.shelf.docs, x);
    }
  }

  lemma UnchangedIff(s: Sys, keys: Keys, now: nat, batch: seq<Doc>, s': Sys)
    requires ShelfInv(s.shelf) && ScanStep(s, keys, now, batch, s')
    ensures (forall queue :: s'.Pool(queue) == s.Pool(queue)) <==> forall d | d in batch :: s.Cached(d)
  {
    if forall queue :: s'.Pool(queue) == s.Pool(queue) {
      forall d | d in batch ensures s.Cached(d) {
        ScanFills(s, keys, now, batch, s', d);
      }
    }
    if forall d | d in batch :: s.Cached(d) {
      forall queue ensures s'.Pool(queue) == s.Pool(queue) {
        forall id | id in Latest(Part(Recalled(batch), queue)) ensures id in s.Pool(queue) {
          RecalledIff(batch, queue, id);
        }
      }
    }
  }

  /** Running a batch again at a later time, because its breakpoint was not saved, leaves the pools
      as they are exactly when the documents that refill it were in the cache from the start. */
  lemma RepeatedBatchIff(s: Sys, keys: Keys, now: nat, a: seq<Doc>, s1: Sys, later: nat, b: seq<Doc>, s2: Sys)
    requires ShelfInv(s.shelf) && now <= later && ScanStep(s, keys, now, a, s1) && ScanStep(s1, keys, later, b, s2)
    ensures (forall queue :: s2.Pool(queue) == s1.Pool(queue))
            <==> forall d | Stored(s.shelf.docs, d) && Refills(s.shelf.docs, keys, a, later, d) :: s.Cached(d)
  {
    UnchangedIff(s1, keys, later, b, s2);
    forall d | Stored(s.shelf.docs, d)
      ensures d in b && d !in a <==> Refills(s.shelf.docs, keys, a, later, d)
      ensures s1.Cached(d) <==> s.Cached(d) || d in a
    {
      RefillIff(s.shelf, keys, now, a, later, b, d);
      ScanFills(s, keys, now, a, s1, d);
    }
    assert forall d | d in b :: Stored(s.shelf.docs, d);
    hide Refills;
    hide Fills;
  }

  /** Nothing refills a batch that was not full, or of which nothing has expired. */
  lemma RepeatedBatchChangesNothing(s: Sys, keys: Keys, now: nat, a: seq<Doc>, s1: Sys, later: nat, b: seq<Doc>,
                                    s2: Sys)
    requires ShelfInv(s.shelf) && now <= later && ScanStep(s, keys, now, a, s1) && ScanStep(s1, keys, later, b, s2)
    requires |a| < 4000 || forall d | d in a :: Live(d, later)
    ensures forall queue :: s2.Pool(queue) == s1.Pool(queue)
  {
    RepeatedBatchIff(s, keys, now, a, s1, later, b, s2);
    var docs := s.shelf.docs;
    if |a| == RECOVERY_BATCH {
      forall k | k in docs && k in KeysOf(a) ensures Live(docs[k], later) { KeysInAnswer(docs, a, k); }
      assert ExpiredOf(docs, a, later) == {};
      forall d | Stored(docs, d) ensures !Refills(docs, keys, a, later, d) {
        assert Selected(d, ScanFilter(keys), later) && a[|a| - 1].internalId < d.internalId ==>
            KeyOf(d) in Behind(docs, keys, later, a, d.internalId);
      }
    }
  }
}
