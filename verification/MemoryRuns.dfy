/** Whole runs of the in-memory cache: any sequence of operations on one queue, from empty. */
module MemoryRuns {
  import opened Pools
  import opened PoolRuns
  import opened EntryLists
  import opened MemoryPools

  function After(ops: seq<Op>): Lists {
    if ops == [] then EMPTY else Apply(After(ops[..|ops| - 1]), ops[|ops| - 1]).0
  }

  function RunOf(ops: seq<Op>): Run {
    Run(seq(|ops| + 1, i requires 0 <= i <= |ops| => Abs(After(ops[..i]))),
        ops,
        seq(|ops|, i requires 0 <= i < |ops| => Apply(After(ops[..i]), ops[i]).1))
  }

  /** Every reachable state has sorted, duplicate-free and pairwise disjoint lists. */
  lemma {:induction false} ReachableIsTidy(ops: seq<Op>)
    ensures Inv(After(ops))
  {
    if ops == [] {
    } else {
      ReachableIsTidy(ops[..|ops| - 1]);
      Refines(After(ops[..|ops| - 1]), ops[|ops| - 1]);
    }
  }

  /** Every run of the lists is a run of the abstract machine, with the same replies. */
  lemma RunsRefine(ops: seq<Op>)
    ensures RunOf(ops).Valid()
  {
    hide Apply;
    hide Step;
    var run := RunOf(ops);
    forall i | 0 <= i < |ops| ensures Step(run.tables[i], ops[i], run.replies[i], run.tables[i + 1]) {
      ReachableIsTidy(ops[..i]);
      Refines(After(ops[..i]), ops[i]);
      assert ops[..i + 1][..i] == ops[..i];
    }
    assert ops[..0] == [];
  }

  lemma ExclusiveInMemory(ops: seq<Op>, i: nat, j: nat, id: string)
    requires i < j < |ops| && ops[i].Pull? && ops[j].Pull?
    requires id in Apply(After(ops[..i]), ops[i]).1 && id in Apply(After(ops[..j]), ops[j]).1
    ensures exists m :: m < j && Redelivers(RunOf(ops), i, m, id)
  {
    RunsRefine(ops);
    assert RunOf(ops).Handles(i, id) && RunOf(ops).Handles(j, id);
    ExclusiveDelivery(RunOf(ops), i, j, id);
  }

  lemma LockScoreInMemory(ops: seq<Op>, j: nat, id: string)
    requires j < |ops| && ops[j].Unlock? && id in Apply(After(ops[..j]), ops[j]).1
    ensures exists i: nat :: Opens(RunOf(ops), i, j, id)
  {
    RunsRefine(ops);
    assert RunOf(ops).Handles(j, id);
    UnlockRestoresScore(RunOf(ops), j, id);
  }

  lemma TimeoutInMemory(ops: seq<Op>, j: nat, id: string)
    requires j < |ops| && ops[j].Timeout? && id in Apply(After(ops[..j]), ops[j]).1
    ensures exists i: nat :: TimesOut(RunOf(ops), i, j, id)
  {
    RunsRefine(ops);
    assert RunOf(ops).Handles(j, id);
    TimeoutNeverEarly(RunOf(ops), j, id);
  }

  // ---------- progress ----------

  lemma NoneDue(p: Lists, op: Op, id: string)
    requires Inv(p) && (op.Timeout? || op.Unlock?) && Apply(p, op).1 == []
    ensures !IsDue(Abs(p), op, id)
  {
    assert MapsOf(p).InOnePool(id);
    ContentIsMembership(p.processing, id);
    ContentIsMembership(p.lockAck, id);
    ContentIsMembership(p.lockNack, id);
  }

  /** A call moves exactly one due entry when there is one. */
  lemma OneDueMoves(p: Lists, op: Op)
    requires Inv(p) && (op.Timeout? || op.Unlock?)
    ensures |Apply(p, op).1| == if |Due(Abs(p), op)| < 1 then |Due(Abs(p), op)| else 1
  {
    assert |Apply(p, op).1| <= 1;
    hide Apply;
    hide Abs;
    Refines(p, op);
    DueShrinks(Abs(p), op, Apply(p, op).1, Abs(Apply(p, op).0));
    if Apply(p, op).1 == [] {
      forall id ensures id !in Due(Abs(p), op) { NoneDue(p, op, id); }
      assert Due(Abs(p), op) == {};
    }
  }

  function Again(p: Lists, op: Op, n: nat): Lists {
    if n == 0 then p else Apply(Again(p, op, n - 1), op).0
  }

  /** n housekeeping calls at one time move n due entries, or all of them. */
  lemma {:induction false} MemoryDrains(p: Lists, op: Op, n: nat)
    requires Inv(p) && (op.Timeout? || op.Unlock?)
    ensures Inv(Again(p, op, n))
    ensures var due := |Due(Abs(p), op)|;
            |Due(Abs(Again(p, op, n)), op)| == if due <= n then 0 else due - n
  {
    if n == 0 {
    } else {
      hide Apply;
      hide Abs;
      var q := Again(p, op, n - 1);
      MemoryDrains(p, op, n - 1);
      Refines(q, op);
      OneDueMoves(q, op);
      DueShrinks(Abs(q), op, Apply(q, op).1, Abs(Apply(q, op).0));
    }
  }

  function Calls(p: Lists, ops: seq<Op>): Lists {
    if ops == [] then p else Apply(Calls(p, ops[..|ops| - 1]), ops[|ops| - 1]).0
  }

  /** After n calls nothing that was due at the first reading is left, or every call moved one entry. */
  lemma {:induction false} MemoryDrainsOver(p: Lists, ops: seq<Op>)
    requires Inv(p) && Task(ops) && ops != []
    ensures Inv(Calls(p, ops))
    ensures Due(Abs(Calls(p, ops)), ops[0]) == {}
            || forall last | SameTask(ops[|ops| - 1], last) ::
                 |Due(Abs(Calls(p, ops)), last)| == |Due(Abs(p), last)| - |ops|
    ensures |Due(Abs(p), ops[|ops| - 1])| <= |ops| ==> Due(Abs(Calls(p, ops)), ops[0]) == {}
  {
    hide Apply;
    hide Abs;
    hide Inv;
    hide Due;
    hide Step;
    var n := |ops| - 1;
    var op, q := ops[n], Calls(p, ops[..n]);
    if n > 0 {
      MemoryDrainsOver(p, ops[..n]);
      assert SameTask(ops[n - 1], op);
    }
    assert SameTask(op, op) && SameTask(ops[0], op);
    Refines(q, op);
    OneDueMoves(q, op);
    var ids, q' := Apply(q, op).1, Apply(q, op).0;
    OneMoreCall(Abs(q), op, ids, Abs(q'), ops[0], 1);
    if Due(Abs(q'), ops[0]) != {} {
      forall last | SameTask(op, last) ensures |Due(Abs(q'), last)| == |Due(Abs(p), last)| - |ops| {
        assert n > 0 ==> SameTask(ops[..n][n - 1], last);
      }
      EarlierDue(Abs(q'), ops[0], op);
      assert |Due(Abs(q'), op)| > 0;
    }
  }
}
