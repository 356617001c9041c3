/** Whole runs of the Redis scripts: any sequence of operations on one queue, from empty. */
module RedisRuns {
  import opened Score
  import opened Pools
  import opened PoolRuns
  import opened RankedSets
  import opened RedisPools

  function After(ops: seq<Op>): ZPools {
    if ops == [] then EMPTY else Apply(After(ops[..|ops| - 1]), ops[|ops| - 1]).0
  }

  function RunOf(ops: seq<Op>): Run {
    Run(seq(|ops| + 1, i requires 0 <= i <= |ops| => Abs(After(ops[..i]))),
        ops,
        seq(|ops|, i requires 0 <= i < |ops| => Apply(After(ops[..i]), ops[i]).1))
  }

  /** Every reachable state has disjoint main sets and no stale saved score. */
  lemma {:induction false} ReachableIsDisjoint(ops: seq<Op>)
    ensures Inv(After(ops))
  {
    if ops == [] {
    } else {
      ReachableIsDisjoint(ops[..|ops| - 1]);
      Refines(After(ops[..|ops| - 1]), ops[|ops| - 1]);
    }
  }

  /** Every run of the scripts is a run of the abstract machine, with the same replies. */
  lemma RunsRefine(ops: seq<Op>)
    ensures RunOf(ops).Valid()
  {
    hide Apply;
    hide Step;
    var run := RunOf(ops);
    forall i | 0 <= i < |ops| ensures Step(run.tables[i], ops[i], run.replies[i], run.tables[i + 1]) {
      ReachableIsDisjoint(ops[..i]);
      Refines(After(ops[..i]), ops[i]);
      assert ops[..i + 1][..i] == ops[..i];
    }
    assert ops[..0] == [];
  }

  lemma ExclusiveInRedis(ops: seq<Op>, i: nat, j: nat, id: string)
    requires i < j < |ops| && ops[i].Pull? && ops[j].Pull?
    requires id in Apply(After(ops[..i]), ops[i]).1 && id in Apply(After(ops[..j]), ops[j]).1
    ensures exists m :: m < j && Redelivers(RunOf(ops), i, m, id)
  {
    RunsRefine(ops);
    assert RunOf(ops).Handles(i, id) && RunOf(ops).Handles(j, id);
    ExclusiveDelivery(RunOf(ops), i, j, id);
  }

  lemma LockScoreInRedis(ops: seq<Op>, j: nat, id: string)
    requires j < |ops| && ops[j].Unlock? && id in Apply(After(ops[..j]), ops[j]).1
    ensures exists i: nat :: Opens(RunOf(ops), i, j, id)
  {
    RunsRefine(ops);
    assert RunOf(ops).Handles(j, id);
    UnlockRestoresScore(RunOf(ops), j, id);
  }

  lemma TimeoutInRedis(ops: seq<Op>, j: nat, id: string)
    requires j < |ops| && ops[j].Timeout? && id in Apply(After(ops[..j]), ops[j]).1
    ensures exists i: nat :: TimesOut(RunOf(ops), i, j, id)
  {
    RunsRefine(ops);
    assert RunOf(ops).Handles(j, id);
    TimeoutNeverEarly(RunOf(ops), j, id);
  }

  // ---------- progress ----------

  /** The deadlines or lock times a housekeeping operation looks at. */
  function Times(z: ZPools, op: Op): ZSet
    requires op.Timeout? || op.Unlock?
  {
    if op.Timeout? then z.processing else z.Locks(op.kind)
  }

  /** The ids the script's range 0..now can see. */
  function Visible(z: ZPools, op: Op): set<string>
    requires op.Timeout? || op.Unlock?
  {
    InScore(Times(z, op), Some(0.0), Some(op.now))
  }

  function Again(z: ZPools, op: Op, n: nat): ZPools {
    if n == 0 then z else Apply(Again(z, op, n - 1), op).0
  }

  lemma MovesVisible(z: ZPools, op: Op)
    requires op.Timeout? || op.Unlock?
    ensures Apply(z, op).1 == RevRangeByScore(Times(z, op), op.now, 0.0, HOUSEKEEPING_BATCH)
    ensures Times(Apply(z, op).0, op) == Times(z, op) - SetOf(Apply(z, op).1)
  {
  }

  /** One call moves min(1000, due) ids, where due means a stored time in 0..now, the latest first. */
  lemma BatchMoves(z: ZPools, op: Op)
    requires op.Timeout? || op.Unlock?
    ensures var (z', ids) := Apply(z, op);
            && NoRepeats(ids) && SetOf(ids) <= Visible(z, op)
            && |ids| == (if |Visible(z, op)| < 1000 then |Visible(z, op)| else 1000)
            && HighestFirst(Times(z, op), Visible(z, op), ids)
            && Times(z', op) == Times(z, op) - SetOf(ids)
            && |Visible(z', op)| == |Visible(z, op)| - |ids|
  {
    MovesVisible(z, op);
    hide Apply;
    hide Times;
    var (z', ids) := Apply(z, op);
    RevRangeFacts(Times(z, op), op.now, 0.0, HOUSEKEEPING_BATCH);
    SizeOfIds(ids);
    hide RevRangeByScore;
    hide NoRepeats;
    InScoreWithout(Times(z, op), op.now, SetOf(ids));
    hide InScore;
  }

  lemma InScoreWithout(times: ZSet, now: real, gone: set<string>)
    ensures InScore(times - gone, Some(0.0), Some(now)) == InScore(times, Some(0.0), Some(now)) - gone
  {
  }

  /** n calls at one time move n batches of due ids, or all of them. */
  lemma {:induction false} RedisDrains(z: ZPools, op: Op, n: nat)
    requires op.Timeout? || op.Unlock?
    ensures var due, moved := |Visible(z, op)|, n * 1000;
            |Visible(Again(z, op, n), op)| == if due <= moved then 0 else due - moved
  {
    hide Apply;
    hide Visible;
    if n == 0 {
    } else {
      RedisDrains(z, op, n - 1);
      BatchMoves(Again(z, op, n - 1), op);
    }
  }

  lemma UnseenStays(z: ZPools, op: Op, id: string)
    requires (op.Timeout? || op.Unlock?) && id in Times(z, op) && !(0.0 <= Times(z, op)[id] <= op.now)
    ensures id in Times(Apply(z, op).0, op) && Times(Apply(z, op).0, op)[id] == Times(z, op)[id]
  {
    hide Apply;
    hide Times;
    BatchMoves(z, op);
    assert id !in Visible(z, op);
  }

  lemma {:induction false} NegativeTimesStay(z: ZPools, op: Op, n: nat, id: string)
    requires (op.Timeout? || op.Unlock?) && id in Times(z, op) && !(0.0 <= Times(z, op)[id] <= op.now)
    ensures id in Times(Again(z, op, n), op) && Times(Again(z, op, n), op)[id] == Times(z, op)[id]
  {
    if n == 0 {
    } else {
      var y := Again(z, op, n - 1);
      NegativeTimesStay(z, op, n - 1, id);
      UnseenStays(y, op, id);
    }
  }

  /** Repeated calls free an id exactly when its stored time lies in 0..now: an id whose
      stored time is negative is never timed out or unlocked. */
  lemma FreedIff(z: ZPools, op: Op, id: string)
    requires (op.Timeout? || op.Unlock?) && id in Times(z, op)
    ensures (exists n: nat :: id !in Times(Again(z, op, n), op)) <==> 0.0 <= Times(z, op)[id] <= op.now
  {
    var n := |Visible(z, op)|;
    if 0.0 <= Times(z, op)[id] <= op.now {
      RedisDrains(z, op, n);
      SameTimes(z, op, n, id);
      assert Visible(Again(z, op, n), op) == {};
      assert id !in Visible(Again(z, op, n), op);
    } else {
      forall n: nat ensures id in Times(Again(z, op, n), op) { NegativeTimesStay(z, op, n, id); }
    }
  }

  lemma {:induction false} SameTimes(z: ZPools, op: Op, n: nat, id: string)
    requires op.Timeout? || op.Unlock?
    ensures id in Times(Again(z, op, n), op) ==>
              id in Times(z, op) && Times(Again(z, op, n), op)[id] == Times(z, op)[id]
  {
    if n == 0 {
    } else {
      SameTimes(z, op, n - 1, id);
      var y := Again(z, op, n - 1);
      MovesVisible(y, op);
      hide Apply;
      hide Times;
      assert Times(Again(z, op, n), op) == Times(y, op) - SetOf(Apply(y, op).1);
    }
  }

  // ---------- a clock that moves on ----------

  function Calls(z: ZPools, ops: seq<Op>): ZPools {
    if ops == [] then z else Apply(Calls(z, ops[..|ops| - 1]), ops[|ops| - 1]).0
  }

  /** A call takes what it moves away from every reading of its task, earlier or later. */
  lemma OtherReadings(z: ZPools, op: Op, other: Op)
    requires SameTask(op, other) || SameTask(other, op)
    ensures Visible(Apply(z, op).0, other) == Visible(z, other) - SetOf(Apply(z, op).1)
    ensures SameTask(op, other) ==> |Visible(Apply(z, op).0, other)| == |Visible(z, other)| - |Apply(z, op).1|
    ensures SameTask(op, other) ==> Visible(z, op) <= Visible(z, other)
  {
    BatchMoves(z, op);
    var (z', ids) := Apply(z, op);
    assert Times(z, other) == Times(z, op) && Times(z', other) == Times(z', op);
    hide Apply;
    hide Times;
    InScoreWithout(Times(z, op), other.now, SetOf(ids));
    if SameTask(op, other) {
      assert Visible(z, op) <= Visible(z, other);
      SizeOfIds(ids);
      hide NoRepeats;
      hide InScore;
      assert |Visible(z, other) - SetOf(ids)| == |Visible(z, other)| - |SetOf(ids)|;
    }
  }

  /** After n calls nothing that was visible at the first reading is left, or n full batches have moved. */
  lemma {:induction false} RedisDrainsOver(z: ZPools, ops: seq<Op>)
    requires Task(ops) && ops != []
    ensures Visible(Calls(z, ops), ops[0]) == {}
            || forall last | SameTask(ops[|ops| - 1], last) ::
                 |Visible(Calls(z, ops), last)| == |Visible(z, last)| - |ops| * 1000
    ensures |Visible(z, ops[|ops| - 1])| <= |ops| * 1000 ==> Visible(Calls(z, ops), ops[0]) == {}
  {
    hide Apply;
    hide Visible;
    var n := |ops| - 1;
    var op, y := ops[n], Calls(z, ops[..n]);
    if n > 0 {
      RedisDrainsOver(z, ops[..n]);
      assert SameTask(ops[n - 1], op);
    }
    assert SameTask(op, op) && SameTask(ops[0], op);
    var ids, y' := Apply(y, op).1, Apply(y, op).0;
    BatchMoves(y, op);
    OtherReadings(y, op, op);
    OtherReadings(y, op, ops[0]);
    EarlierVisible(y', ops[0], op);
    if Visible(y', ops[0]) != {} {
      forall last | SameTask(op, last) ensures |Visible(y', last)| == |Visible(z, last)| - |ops| * HOUSEKEEPING_BATCH {
        OtherReadings(y, op, last);
        assert n > 0 ==> SameTask(ops[..n][n - 1], last);
      }
    }
  }

  lemma EarlierVisible(z: ZPools, op: Op, later: Op)
    requires SameTask(op, later)
    ensures Visible(z, op) <= Visible(z, later)
  {
  }
}
