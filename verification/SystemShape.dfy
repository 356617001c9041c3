/** What every run keeps, whatever it contains: sound storage, and recovery keys that belong together. */
module SystemShape {
  import opened Pools
  import opened StorageModel
  import opened RecoveryKeys
  import opened System
  import opened NoLoss

  /** A scan under way has a target. */
  predicate Aimed(keys: Keys) {
    keys.running || keys.scanned.At? ==> keys.target.At?
  }

  ghost predicate Shape(s: Sys) {
    ShelfInv(s.shelf) && KeysInv(s.keys) && KeysBelow(s) && Aimed(s.keys)
  }

  lemma EvictKeepsShape(s: Sys, victims: seq<Doc>, s': Sys)
    requires Shape(s) && EvictStep(s, victims, s')
    ensures Shape(s')
  {
    var docs, docs' := s.shelf.docs, s'.shelf.docs;
    forall k | k in docs' ensures k in docs && docs[k] == docs'[k] { assert Stored(docs', docs'[k]); }
  }

  lemma ScanKeepsShape(s: Sys, keys: Keys, scanAt: nat, batch: seq<Doc>, s': Sys)
    requires Shape(s.(keys := keys)) && keys.running && ScanStep(s, keys, scanAt, batch, s')
    ensures Shape(s')
  {
    if batch != [] {
      AnswerBelow(s.shelf, batch, |batch| - 1);
    }
    hide ShelfInv;
    hide Fills;
  }

  lemma RecoverKeepsShape(s: Sys, now: nat, scanAt: nat, last: seq<Doc>, batch: seq<Doc>, s': Sys)
    requires Shape(s) && RecoverStep(s, now, scanAt, last, batch, s')
    ensures Shape(s')
  {
    hide ScanStep;
    if !s.keys.scanned.Finished? {
      if MustStart(s.keys) {
        if last != [] {
          AnswerBelow(s.shelf, last, 0);
          ScanKeepsShape(s, Started(s.keys, last), scanAt, batch, s');
        }
      } else {
        ScanKeepsShape(s, s.keys, scanAt, batch, s');
      }
    }
  }

  lemma AddKeepsShape(s: Sys, items: seq<AddItem>, now: nat, s': Sys)
    requires Shape(s) && Next(s, Action.Add(items), now, s')
    ensures Shape(s')
  {
    var taken := if AllAddable(items) then items else items[..Accepted(items)];
    AddableAreValid(taken, now);
    PutKeepsInv(s.shelf, ToMessages(taken, now));
    PutCounts(s.shelf, ToMessages(taken, now));
    hide ShelfInv;
    hide Put;
  }

  lemma NextKeepsShape(s: Sys, action: Action, now: nat, s': Sys)
    requires Shape(s) && Next(s, action, now, s')
    ensures Shape(s')
  {
    hide Operates;
    hide Step;
    hide Sweeps;
    hide Fills;
    hide Answers;
    match action
    case Add(items) => AddKeepsShape(s, items, now, s');
    case Settle(kind, queue, id, r) => RescoreKeeps(s.shelf, queue, id, ReplyScore(kind, r, now), r.lockMs);
    case SettleAndRemove(kind, queue, id, r) => RescoreKeeps(s.shelf, queue, id, ReplyScore(kind, r, now), r.lockMs);
    case RemoveExpired =>
      var victims :| ExpiredStep(s, now, victims, s');
      if !s.keys.running { EvictKeepsShape(s, victims, s'); }
    case RemoveExceeding(queue, maxElements) =>
      var victims :| ExceedingStep(s, queue, maxElements, now, victims, s');
      if s' != s { EvictKeepsShape(s, victims, s'); }
    case Recover(scanAt) =>
      var last, batch :| RecoverStep(s, now, scanAt, last, batch, s');
      RecoverKeepsShape(s, now, scanAt, last, batch, s');
    case _ =>
  }

  lemma {:induction false} RunKeepsShape(run: Run, i: nat)
    requires run.Valid() && i <= |run.actions|
    ensures Shape(run.states[i])
  {
    hide Next;
    if i == 0 {
      NothingToLose();
    } else {
      StepOf(run, i - 1);
      RunKeepsShape(run, i - 1);
      hide Shape;
      NextKeepsShape(run.states[i - 1], run.actions[i - 1], run.times[i - 1], run.states[i]);
    }
  }
}
