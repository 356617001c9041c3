/** The two caches side by side: what a pull answers from the same active pool. */
module CacheComparison {
  import opened Score
  import opened Pools
  import opened EntryLists
  import M = MemoryPools
  import opened RankedSets
  import R = RedisPools

  predicate StrictlySorted(l: EntryList) {
    forall i, j | 0 <= i < j < |l| :: l[i].score < l[j].score && l[i].id != l[j].id
  }

  /** On distinct scores the rank order of the sorted set is the list order. */
  lemma {:induction false} SameOrder(l: EntryList)
    requires StrictlySorted(l)
    ensures Ranked(M.Scores(Content(l))) == M.Ids(l)
  {
    var z := M.Scores(Content(l));
    if l == [] {
      assert z == map[];
    } else {
      var head, tail := l[0], l[1..];
      SameOrder(tail);
      assert Tidy(l);
      UnconsTidy(l);
      assert z == M.Scores(Content(tail))[head.id := head.score];
      assert z - {head.id} == M.Scores(Content(tail));
      forall x | x in z && x != head.id ensures z[head.id] < z[x] {
        ContentIsMembership(tail, x);
      }
      FirstIsUnique(z);
      assert IsFirst(z, head.id);
      assert M.Ids(l) == [head.id] + M.Ids(tail);
    }
  }

  // ---------- the in-range entries of a sorted list are one slice ----------

  function AtLeast(min: Option<real>): Entry -> bool {
    (e: Entry) => min.None? || min.value <= e.score
  }

  function Above(max: Option<real>): Entry -> bool {
    (e: Entry) => max.Some? && max.value < e.score
  }

  /** The first entry not below the minimum, and the first entry above the maximum. */
  function Low(l: EntryList, min: Option<real>): (i: nat)
    ensures i <= |l|
  {
    M.FirstIndex(l, AtLeast(min))
  }

  function High(l: EntryList, max: Option<real>): (i: nat)
    ensures i <= |l|
  {
    M.FirstIndex(l, Above(max))
  }

  function Slice<T>(s: seq<T>, from: nat, to: nat): seq<T> {
    if from < to <= |s| then s[from..to] else []
  }

  lemma InRangeIsBetween(l: EntryList, min: Option<real>, max: Option<real>, i: nat)
    requires Sorted(l) && i < |l|
    ensures InRange(l[i].score, min, max) <==> Low(l, min) <= i < High(l, max)
  {
    var lo, hi := Low(l, min), High(l, max);
    assert i < lo ==> !AtLeast(min)(l[i]);
    assert i < hi ==> !Above(max)(l[i]);
  }

  lemma SliceGrows(l: EntryList, lo: nat, hi: nat, k: nat)
    requires 0 < k <= |l| && hi <= |l|
    ensures Slice(l, lo, Min(k, hi))
            == if lo <= k - 1 < hi then Slice(l, lo, Min(k - 1, hi)) + [l[k - 1]] else Slice(l, lo, Min(k - 1, hi))
  {
  }

  lemma {:induction false} SelectIsSlice(l: EntryList, k: nat, min: Option<real>, max: Option<real>)
    requires Sorted(l) && k <= |l|
    ensures M.Select(l[..k], min, max, true) == Slice(l, Low(l, min), Min(k, High(l, max)))
  {
    if k == 0 {
    } else {
      SelectIsSlice(l, k - 1, min, max);
      M.SelectNext(l, k, min, max, true);
      InRangeIsBetween(l, min, max, k - 1);
      hide M.Select;
      hide InRange;
      hide Low;
      hide High;
      hide Sorted;
      SliceGrows(l, Low(l, min), High(l, max), k);
    }
  }

  lemma KeepSnoc(ids: seq<string>, id: string, z: ZSet, min: Option<real>, max: Option<real>)
    ensures Keep(ids + [id], z, min, max)
            == if id in z && InRange(z[id], min, max) then Keep(ids, z, min, max) + [id] else Keep(ids, z, min, max)
  {
    assert (ids + [id])[..|ids|] == ids;
  }

  lemma {:induction false} KeepIsSelect(l: EntryList, k: nat, min: Option<real>, max: Option<real>)
    requires DistinctIds(l) && k <= |l|
    ensures Keep(M.Ids(l)[..k], M.Scores(Content(l)), min, max) == M.Ids(M.Select(l[..k], min, max, true))
  {
    if k == 0 {
    } else {
      hide Keep;
      hide M.Select;
      var e, z := l[k - 1], M.Scores(Content(l));
      KeepIsSelect(l, k - 1, min, max);
      M.SelectNext(l, k, min, max, true);
      M.Snoc(M.Select(l[..k - 1], min, max, true), e);
      ScoreAt(l, k - 1);
      IdsNext(l, k);
      hide M.Ids;
      hide M.Scores;
      hide InRange;
      KeepSnoc(M.Ids(l)[..k - 1], e.id, z, min, max);
    }
  }

  lemma IdsNext(l: EntryList, k: nat)
    requires 0 < k <= |l|
    ensures |M.Ids(l)| == |l| && M.Ids(l)[..k] == M.Ids(l)[..k - 1] + [l[k - 1].id]
  {
  }

  lemma ScoreAt(l: EntryList, i: nat)
    requires DistinctIds(l) && i < |l|
    ensures l[i].id in M.Scores(Content(l)) && M.Scores(Content(l))[l[i].id] == l[i].score
  {
    ContentAt(l, i);
  }

  ghost predicate IsPrefix(a: seq<string>, b: seq<string>) {
    |a| <= |b| && a == b[..|a|]
  }

  lemma MemoryAnswer(p: M.Lists, op: Op)
    requires Sorted(p.active) && op.Pull? && op.n >= 1
    ensures M.DoPull(p, op.n, op.min, op.max, op.deadline).1
            == Slice(M.Ids(p.active), Low(p.active, op.min), Min(op.n, High(p.active, op.max)))
  {
    var l, k := p.active, M.Examined(op.n, |p.active|);
    SelectIsSlice(l, k, op.min, op.max);
    IdsOfSlice(l, Low(l, op.min), Min(k, High(l, op.max)));
  }

  lemma RedisAnswer(l: EntryList, op: Op)
    requires StrictlySorted(l) && op.Pull? && op.n >= 1
    ensures RangeByScore(M.Scores(Content(l)), op.min, op.max, op.n)
            == Slice(M.Ids(l), Low(l, op.min), Min(Low(l, op.min) + op.n, High(l, op.max)))
  {
    KeptSlice(l, op.min, op.max);
    LimitSlice(M.Ids(l), Low(l, op.min), High(l, op.max), op.n);
  }

  lemma KeptSlice(l: EntryList, min: Option<real>, max: Option<real>)
    requires StrictlySorted(l)
    ensures Keep(Ranked(M.Scores(Content(l))), M.Scores(Content(l)), min, max)
            == Slice(M.Ids(l), Low(l, min), High(l, max))
  {
    SameOrder(l);
    assert l[..|l|] == l && M.Ids(l)[..|l|] == M.Ids(l);
    hide Ranked;
    hide Keep;
    hide Content;
    hide M.Select;
    KeepIsSelect(l, |l|, min, max);
    SelectIsSlice(l, |l|, min, max);
    IdsOfSlice(l, Low(l, min), High(l, max));
  }

  lemma LimitSlice(names: seq<string>, lo: nat, hi: nat, n: nat)
    requires hi <= |names|
    ensures Limit(Slice(names, lo, hi), n) == Slice(names, lo, Min(lo + n, hi))
  {
  }

  lemma SlicesCompared(names: seq<string>, lo: nat, hi: nat, n: nat)
    requires hi <= |names| && n >= 1
    ensures var a, b := Slice(names, lo, Min(n, hi)), Slice(names, lo, Min(lo + n, hi));
            IsPrefix(a, b) && (a == b <==> hi <= lo || lo == 0 || hi <= n)
  {
    var a, b := Slice(names, lo, Min(n, hi)), Slice(names, lo, Min(lo + n, hi));
    if lo < hi && lo != 0 && n < hi {
      assert |a| != |b|;
    }
  }

  lemma IdsOfSlice(l: EntryList, from: nat, to: nat)
    ensures M.Ids(Slice(l, from, to)) == Slice(M.Ids(l), from, to)
  {
  }

  /** On distinct scores the in-memory answer is a prefix of the script's answer. They are
      equal exactly when nothing is in range, nothing active scores below the minimum, or
      n covers every active entry up to the last one in range. */
  lemma PullAnswersCompared(p: M.Lists, z: R.ZPools, op: Op)
    requires StrictlySorted(p.active) && z.active == M.Scores(Content(p.active))
    requires op.Pull? && op.n >= 1
    ensures var memory := M.DoPull(p, op.n, op.min, op.max, op.deadline).1;
            var redis := R.RunPull(z, op.n, op.min, op.max, op.deadline).1;
            var lo, hi := Low(p.active, op.min), High(p.active, op.max);
            && IsPrefix(memory, redis)
            && (memory == redis <==> hi <= lo || lo == 0 || hi <= op.n)
  {
    MemoryAnswer(p, op);
    RedisAnswer(p.active, op);
    R.PullElementsOrdered(z.active, op);
    hide M.DoPull;
    hide RangeByScore;
    SlicesCompared(M.Ids(p.active), Low(p.active, op.min), High(p.active, op.max), op.n);
  }

  /** Without a minimum score both caches answer the same ids. */
  lemma UnfilteredPullsAgree(p: M.Lists, z: R.ZPools, op: Op)
    requires StrictlySorted(p.active) && z.active == M.Scores(Content(p.active))
    requires op.Pull? && op.n >= 1 && op.min == None
    ensures M.DoPull(p, op.n, op.min, op.max, op.deadline).1 == R.RunPull(z, op.n, op.min, op.max, op.deadline).1
  {
    PullAnswersCompared(p, z, op);
    assert p.active != [] ==> AtLeast(op.min)(p.active[0]);
  }

  // ---------- equal scores ----------

  /** In memory a new message goes in front of all active messages of the same score, so the newest of
      them is pulled first. */
  lemma NewestFirst(p: M.Lists, m: Msg) returns (i: nat)
    requires !p.HasAny(m.id)
    ensures var l := M.DoInsert(p, [m]).0.active;
            && i < |l| && l[i] == Entry(m.id, m.score, 0.0)
            && (forall j | 0 <= j < i :: l[j].score < m.score)
  {
    var e := Entry(m.id, m.score, 0.0);
    assert [m][..0] == [] && [e][..0] == [];
    assert M.Fresh(p, [m]) == [e];
    assert InsertAll(p.active, [e]) == InsertEntry(p.active, e);
    i := PlaceOf(RemoveId(p.active, m.id), e);
  }

  lemma {:induction false} PlaceOf(l: EntryList, e: Entry) returns (i: nat)
    ensures var r := InsertBefore(l, e);
            i < |r| && r[i] == e && forall j | 0 <= j < i :: r[j].score < e.score
  {
    if l == [] || e.score <= l[0].score {
      i := 0;
    } else {
      i := PlaceOf(l[1..], e);
      i := i + 1;
    }
  }

  /** In Redis messages of the same score are pulled in the order of their names. */
  lemma NamesInOrder(active: ZSet, op: Op, i: nat, j: nat)
    requires op.Pull?
    requires i < j < |R.PullElements(active, op.n, op.min, op.max)|
    ensures var ids := R.PullElements(active, op.n, op.min, op.max);
            && ids[i] in active && ids[j] in active
            && (active[ids[i]] == active[ids[j]] ==> exists k: nat :: LeavesAt(ids[i], ids[j], k))
  {
    R.AnswerIsPrefix(active, op);
    RankedOrder(active);
    hide Ranked;
    hide R.PullElements;
    KeepsOrder(active, Ranked(active), op.min, op.max, i, j);
    var ids := R.PullElements(active, op.n, op.min, op.max);
    LexLessIff(ids[i], ids[j]);
  }

  lemma {:induction false} KeepsOrder(z: ZSet, ids: seq<string>, min: Option<real>, max: Option<real>, i: nat, j: nat)
    requires forall a, b | 0 <= a < b < |ids| :: ids[a] in z && ids[b] in z && Before(z, ids[a], ids[b])
    requires i < j < |Keep(ids, z, min, max)|
    ensures var kept := Keep(ids, z, min, max);
            kept[i] in z && kept[j] in z && Before(z, kept[i], kept[j])
  {
    var n := |ids| - 1;
    var rest := ids[..n];
    if j < |Keep(rest, z, min, max)| {
      KeepsOrder(z, rest, min, max, i, j);
    } else {
      KeepMembers(rest, z, min, max);
      assert Keep(rest, z, min, max)[i] in rest;
      var a :| 0 <= a < n && rest[a] == Keep(rest, z, min, max)[i];
      assert Before(z, ids[a], ids[n]);
    }
  }
}
