/** Recovery in the middle of everything else: in any run without a loss of the cache or a flush,
    recovery calls finish the scan, whatever requests and evictions come in between. */
module RecoveryProgress {
  import opened Pools
  import opened StorageModel
  import opened RecoveryKeys
  import opened System
  import opened NoLoss
  import opened SystemShape

  /** The stored documents, live or not, in (breakpoint, target]; without a target, all after the breakpoint. */
  function Left(s: Sys): set<string> {
    set k | k in s.shelf.docs && InWindow(s.keys, s.shelf.docs[k].internalId)
  }

  predicate InWindow(keys: Keys, number: int) {
    && (keys.scanned.At? ==> keys.scanned.internalId < number)
    && (keys.target.At? ==> number <= keys.target.internalId)
  }

  /** Actions that do not reset recovery. */
  predicate Goes(action: Action) {
    !action.WipeCache? && !action.FlushAll?
  }

  /** Nothing enters the window: every document after the step was there before, under its number,
      or has a number beyond the target. */
  ghost predicate OnlyOld(s: Sys, s': Sys) {
    forall k | k in s'.shelf.docs ::
      (k in s.shelf.docs && s.shelf.docs[k].internalId == s'.shelf.docs[k].internalId)
      || s.shelf.counter < s'.shelf.docs[k].internalId
  }

  lemma AddIsOnlyOld(s: Sys, items: seq<AddItem>, now: nat, s': Sys)
    requires Next(s, Action.Add(items), now, s')
    ensures OnlyOld(s, s') && s'.keys == s.keys
  {
    var taken := if AllAddable(items) then items else items[..Accepted(items)];
    var messages := ToMessages(taken, now);
    assert s'.shelf == Put(s.shelf, messages);
    forall k | k in s'.shelf.docs
      ensures (k in s.shelf.docs && s.shelf.docs[k].internalId == s'.shelf.docs[k].internalId)
              || s.shelf.counter < s'.shelf.docs[k].internalId
    {
      if k in s.shelf.docs {
        PutKeepsIdentity(s.shelf, messages, k);
      } else {
        PutNames(s.shelf, messages, k);
      }
    }
  }

  lemma EvictIsOnlyOld(s: Sys, victims: seq<Doc>, s': Sys)
    requires EvictStep(s, victims, s')
    ensures OnlyOld(s, s') && s'.keys == s.keys
  {
    forall k | k in s'.shelf.docs ensures k in s.shelf.docs && s.shelf.docs[k] == s'.shelf.docs[k] {
      assert Stored(s'.shelf.docs, s'.shelf.docs[k]);
    }
  }

  lemma RequestIsOnlyOld(s: Sys, action: Action, now: nat, s': Sys)
    requires Next(s, action, now, s') && Goes(action) && !action.Recover?
    ensures OnlyOld(s, s') && s'.keys == s.keys
  {
    hide Operates;
    hide Step;
    hide Sweeps;
    hide Answers;
    hide Fills;
    match action
    case Add(items) => AddIsOnlyOld(s, items, now, s');
    case RemoveExpired =>
      var victims :| ExpiredStep(s, now, victims, s');
      if !s.keys.running { EvictIsOnlyOld(s, victims, s'); }
    case RemoveExceeding(queue, maxElements) =>
      var victims :| ExceedingStep(s, queue, maxElements, now, victims, s');
      if s' != s { EvictIsOnlyOld(s, victims, s'); }
    case _ =>
  }

  lemma WindowOnlyShrinks(s: Sys, s': Sys)
    requires KeysBelow(s) && OnlyOld(s, s') && s'.keys == s.keys && s.keys.target.At?
    ensures Left(s') <= Left(s) && |Left(s')| <= |Left(s)|
  {
    SubsetSize(Left(s'), Left(s));
  }

  /** A scan that does not finish passes a full batch of the window. */
  lemma ScanTakesBatch(s: Sys, keys: Keys, scanAt: nat, batch: seq<Doc>, s': Sys)
    requires ShelfInv(s.shelf) && ScanStep(s, keys, scanAt, batch, s') && !s'.keys.scanned.Finished?
    ensures s'.keys.target == keys.target
    ensures |Left(s')| <= |Left(s.(keys := keys))| - RECOVERY_BATCH
  {
    var before, last := Left(s.(keys := keys)), batch[|batch| - 1];
    AnswerSize(s.shelf.docs, scanAt, ScanFilter(keys), ByIdAscending, RECOVERY_BATCH, batch);
    assert last in batch;
    forall k | k in Left(s') ensures k in before && k !in KeysOf(batch) {
      forall i | 0 <= i < |batch| ensures KeyOf(batch[i]) != k {
        assert batch[i] in batch;
        assert i < |batch| - 1 ==> Leq(ByIdAscending, batch[i], last);
      }
    }
    forall k | k in KeysOf(batch) ensures k in before {
      var i :| 0 <= i < |batch| && KeyOf(batch[i]) == k;
      assert batch[i] in batch;
    }
    SubsetSize(KeysOf(batch), before);
    SubsetSize(Left(s'), before - KeysOf(batch));
  }

  /** A recovery call finishes, or takes a full batch off the window and has a target. */
  lemma RecoverTakesBatch(s: Sys, now: nat, scanAt: nat, s': Sys)
    requires Shape(s) && Next(s, Action.Recover(scanAt), now, s') && !s'.keys.scanned.Finished?
    ensures s'.keys.target.At? && |Left(s')| <= |Left(s)| - RECOVERY_BATCH
  {
    var last, batch :| RecoverStep(s, now, scanAt, last, batch, s');
    hide ScanStep;
    if MustStart(s.keys) {
      var keys := Started(s.keys, last);
      ScanTakesBatch(s, keys, scanAt, batch, s');
      assert Left(s.(keys := keys)) <= Left(s);
      SubsetSize(Left(s.(keys := keys)), Left(s));
    } else {
      assert s.(keys := s.keys) == s;
      ScanTakesBatch(s, s.keys, scanAt, batch, s');
    }
  }

  lemma FinishedStays(s: Sys, action: Action, now: nat, s': Sys)
    requires s.keys.scanned.Finished? && Goes(action) && Next(s, action, now, s')
    ensures s'.keys.scanned.Finished?
  {
    if !action.Recover? {
      RequestIsOnlyOld(s, action, now, s');
      hide Next;
    }
  }

  // ---------- runs ----------

  /** The recovery calls among the actions from `a` to `j`. */
  function Recoveries(run: Run, a: nat, j: nat): nat
    requires a <= j <= |run.actions|
  {
    if j == a then 0 else Recoveries(run, a, j - 1) + if run.actions[j - 1].Recover? then 1 else 0
  }

  ghost predicate Undisturbed(run: Run, a: nat, j: nat)
    requires j <= |run.actions|
  {
    forall i | a <= i < j :: Goes(run.actions[i])
  }

  /** From a recovery call on, every recovery call finishes the scan or takes 4000 documents off
      what is left; requests, sweeps and evictions in between never add to it. */
  lemma {:induction false} ProgressInRun(run: Run, a: nat, j: nat)
    requires run.Valid() && a < j <= |run.actions| && run.actions[a].Recover? && Undisturbed(run, a, j)
    ensures run.states[j].keys.scanned.Finished?
            || (run.states[j].keys.target.At?
                && |Left(run.states[j])| + Recoveries(run, a, j) * 4000 <= |Left(run.states[a])|)
  {
    hide Next;
    hide Shape;
    hide Left;
    var s, action, now, s' := run.states[j - 1], run.actions[j - 1], run.times[j - 1], run.states[j];
    StepOf(run, j - 1);
    RunKeepsShape(run, j - 1);
    if j - 1 > a {
      ProgressInRun(run, a, j - 1);
    } else {
      assert Recoveries(run, a, a) == 0;
    }
    if s.keys.scanned.Finished? {
      FinishedStays(s, action, now, s');
    } else if action.Recover? {
      if !s'.keys.scanned.Finished? {
        RecoverTakesBatch(s, now, action.scanAt, s');
      }
    } else {
      RequestIsOnlyOld(s, action, now, s');
      KeysOfShape(s);
      WindowOnlyShrinks(s, s');
    }
  }

  lemma KeysOfShape(s: Sys)
    requires Shape(s)
    ensures KeysBelow(s)
  {
  }

  /** So L / 4000 + 1 recovery calls finish the scan of L stored documents in any such run. */
  lemma FinishesInRun(run: Run, a: nat, j: nat)
    requires run.Valid() && a < j <= |run.actions| && run.actions[a].Recover? && Undisturbed(run, a, j)
    requires Recoveries(run, a, j) * 4000 > |Left(run.states[a])|
    ensures run.states[j].keys.scanned.Finished?
  {
    ProgressInRun(run, a, j);
  }

  /** And once they have, a run whose Adds were safe has every live document in a pool. */
  lemma RestoredInRun(run: Run, a: nat, j: nat, d: Doc)
    requires run.Valid() && a < j <= |run.actions| && run.actions[a].Recover? && Undisturbed(run, a, j)
    requires Recoveries(run, a, j) * 4000 > |Left(run.states[a])|
    requires forall i | 0 <= i < j :: SafeAt(run, i)
    requires Stored(run.states[j].shelf.docs, d) && Live(d, run.Clock(j))
    ensures run.states[j].Cached(d)
  {
    FinishesInRun(run, a, j);
    RunKeeps(run, j);
    assert Covers(run.states[j], d);
  }
}
