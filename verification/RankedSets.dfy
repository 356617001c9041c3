/** Redis sorted sets: members with scores, ranked by score and then by member. */
module RankedSets {
  import opened Score
  import opened Pools
  import PoolRuns

  type ZSet = map<string, real>

  // ---------- the order of members ----------

  predicate LexLess(a: string, b: string) {
    b != "" && (a == "" || a[0] < b[0] || (a[0] == b[0] && LexLess(a[1..], b[1..])))
  }

  lemma {:induction false} LexTotal(a: string, b: string)
    ensures a == b || LexLess(a, b) || LexLess(b, a)
    ensures !(LexLess(a, b) && LexLess(b, a))
    ensures !LexLess(a, a)
  {
    if a != "" && b != "" {
      LexTotal(a[1..], b[1..]);
      assert a == [a[0]] + a[1..] && b == [b[0]] + b[1..];
    }
    if a != "" {
      LexIrreflexive(a);
    }
  }

  lemma {:induction false} LexIrreflexive(a: string)
    ensures !LexLess(a, a)
  {
    if a != "" {
      LexIrreflexive(a[1..]);
    }
  }

  lemma {:induction false} LexTransitive(a: string, b: string, c: string)
    requires LexLess(a, b) && LexLess(b, c)
    ensures LexLess(a, c)
  {
    if a != "" && a[0] == b[0] && b[0] == c[0] {
      LexTransitive(a[1..], b[1..], c[1..]);
    }
  }

  /** `a` ends, or has a smaller character, at the first position where it leaves `b`. */
  predicate LeavesAt(a: string, b: string, k: nat) {
    k <= |a| && k < |b| && a[..k] == b[..k] && (k == |a| || a[k] < b[k])
  }

  lemma LeavesNext(a: string, b: string, k: nat)
    requires a != "" && b != "" && a[0] == b[0]
    ensures LeavesAt(a, b, k + 1) <==> LeavesAt(a[1..], b[1..], k)
  {
    if k + 1 <= |a| && k + 1 <= |b| {
      assert a[..k + 1] == [a[0]] + a[1..][..k] && b[..k + 1] == [b[0]] + b[1..][..k];
      assert a[..k + 1] == b[..k + 1] <==> a[1..][..k] == b[1..][..k] by {
        assert a[..k + 1][1..] == a[1..][..k] && b[..k + 1][1..] == b[1..][..k];
      }
    }
  }

  lemma {:induction false} LexLessIff(a: string, b: string)
    ensures LexLess(a, b) <==> exists k: nat :: LeavesAt(a, b, k)
  {
    if b == "" {
    } else if a == "" || a[0] < b[0] {
      assert LeavesAt(a, b, 0);
    } else if a[0] != b[0] {
      forall k: nat ensures !LeavesAt(a, b, k) {
        if 0 < k <= |a| && k < |b| {
          assert a[..k][0] == a[0] && b[..k][0] == b[0];
        }
      }
    } else {
      LexLessIff(a[1..], b[1..]);
      if k: nat :| LeavesAt(a[1..], b[1..], k) {
        LeavesNext(a, b, k);
      }
      if k: nat :| LeavesAt(a, b, k) {
        LeavesNext(a, b, k - 1);
      }
    }
  }

  predicate Before(z: ZSet, a: string, b: string)
    requires a in z && b in z
  {
    z[a] < z[b] || (z[a] == z[b] && LexLess(a, b))
  }

  predicate IsFirst(z: ZSet, m: string) {
    m in z && forall x | x in z && x != m :: Before(z, m, x)
  }

  lemma {:induction false} FirstExists(z: ZSet)
    requires z != map[]
    ensures exists m :: IsFirst(z, m)
  {
    var k :| k in z;
    var rest := z - {k};
    if rest == map[] {
      assert forall x | x in z && x != k :: x in rest;
      assert IsFirst(z, k);
    } else {
      FirstExists(rest);
      var m :| IsFirst(rest, m);
      LexTotal(k, m);
      if Before(z, k, m) {
        forall x | x in z && x != k ensures Before(z, k, x) {
          if x != m {
            assert Before(rest, m, x);
            if LexLess(k, m) && LexLess(m, x) { LexTransitive(k, m, x); }
          }
        }
        assert IsFirst(z, k);
      } else {
        forall x | x in z && x != m ensures Before(z, m, x) {
          if x != k { assert Before(rest, m, x); }
        }
        assert IsFirst(z, m);
      }
    }
  }

  lemma FirstIsUnique(z: ZSet)
    ensures forall a, b | IsFirst(z, a) && IsFirst(z, b) :: a == b
  {
    forall a, b | IsFirst(z, a) && IsFirst(z, b) ensures a == b {
      LexTotal(a, b);
    }
  }

  /** The member of lowest rank. */
  function First(z: ZSet): (m: string)
    requires z != map[]
    ensures IsFirst(z, m)
  {
    FirstExists(z);
    FirstIsUnique(z);
    var m :| m in z && IsFirst(z, m);
    m
  }

  /** All members in rank order. */
  function Ranked(z: ZSet): seq<string>
    decreases |z|
  {
    if z == map[] then [] else
      var m := First(z);
      [m] + Ranked(z - {m})
  }

  lemma {:induction false} RankedMembers(z: ZSet)
    ensures forall id :: id in Ranked(z) <==> id in z
    decreases |z|
  {
    if z != map[] {
      RankedMembers(z - {First(z)});
    }
  }

  lemma RankedCons(z: ZSet, m: string, r: seq<string>)
    requires IsFirst(z, m) && m !in r && NoRepeats(r)
    requires forall i | 0 <= i < |r| :: r[i] in z
    requires forall i, j | 0 <= i < j < |r| :: Before(z, r[i], r[j])
    ensures NoRepeats([m] + r)
    ensures forall i, j | 0 <= i < j < |[m] + r| :: Before(z, ([m] + r)[i], ([m] + r)[j])
  {
    forall i, j | 0 <= i < j < |[m] + r| ensures Before(z, ([m] + r)[i], ([m] + r)[j]) {
      if i > 0 {
        assert Before(z, r[i - 1], r[j - 1]);
      } else {
        assert r[j - 1] in r;
      }
    }
  }

  lemma {:induction false} RankedOrder(z: ZSet)
    ensures NoRepeats(Ranked(z)) && |Ranked(z)| == |z|
    ensures forall i | 0 <= i < |Ranked(z)| :: Ranked(z)[i] in z
    ensures forall i, j | 0 <= i < j < |Ranked(z)| :: Before(z, Ranked(z)[i], Ranked(z)[j])
    decreases |z|
  {
    RankedMembers(z);
    if z != map[] {
      var m := First(z);
      var rest := z - {m};
      var r := Ranked(rest);
      RankedOrder(rest);
      RankedMembers(rest);
      assert m in z && m !in r;
      forall i, j | 0 <= i < j < |r| ensures Before(z, r[i], r[j]) { assert Before(rest, r[i], r[j]); }
      RankedCons(z, m, r);
    }
  }

  // ---------- range commands ----------

  function Keep(ids: seq<string>, z: ZSet, min: Option<real>, max: Option<real>): seq<string> {
    if ids == [] then []
    else
      var n := |ids| - 1;
      Keep(ids[..n], z, min, max) + if ids[n] in z && InRange(z[ids[n]], min, max) then [ids[n]] else []
  }

  /** LIMIT 0 n: a negative n means no limit. */
  function Limit(ids: seq<string>, n: int): seq<string> {
    if n < 0 || n >= |ids| then ids else ids[..n]
  }

  function Reverse(ids: seq<string>): (r: seq<string>)
    ensures |r| == |ids|
  {
    seq(|ids|, i requires 0 <= i < |ids| => ids[|ids| - 1 - i])
  }

  /** ZRANGEBYSCORE z min max LIMIT 0 n. */
  function RangeByScore(z: ZSet, min: Option<real>, max: Option<real>, n: int): seq<string> {
    Limit(Keep(Ranked(z), z, min, max), n)
  }

  /** ZREVRANGEBYSCORE z max min LIMIT 0 n. */
  function RevRangeByScore(z: ZSet, max: real, min: real, n: int): seq<string> {
    Limit(Reverse(Keep(Ranked(z), z, Some(min), Some(max))), n)
  }

  /** ZRANGE z 0 stop: a negative stop counts from the end. */
  function RangeTo(z: ZSet, stop: int): seq<string> {
    var ranked := Ranked(z);
    var last := if stop < 0 then |ranked| + stop else stop;
    if last < 0 then [] else if last + 1 >= |ranked| then ranked else ranked[..last + 1]
  }

  lemma LimitIsPrefix(ids: seq<string>, n: int)
    ensures Limit(ids, n) <= ids
    ensures n >= 1 ==> |Limit(ids, n)| <= n && (|Limit(ids, n)| < n ==> Limit(ids, n) == ids)
  {
  }

  lemma RangeToIsPrefix(z: ZSet, stop: int)
    ensures RangeTo(z, stop) <= Ranked(z)
    ensures stop >= 0 ==> |RangeTo(z, stop)| <= stop + 1
  {
    hide Ranked;
  }

  ghost predicate Ordered(ids: seq<string>, z: ZSet) {
    && NoRepeats(ids)
    && (forall i | 0 <= i < |ids| :: ids[i] in z)
    && (forall i, j | 0 <= i < j < |ids| :: z[ids[i]] <= z[ids[j]])
  }

  lemma {:induction false} KeepMembers(ids: seq<string>, z: ZSet, min: Option<real>, max: Option<real>)
    ensures forall id :: id in Keep(ids, z, min, max) <==> id in ids && id in z && InRange(z[id], min, max)
  {
    if ids == [] {
    } else {
      var n := |ids| - 1;
      KeepMembers(ids[..n], z, min, max);
      assert ids == ids[..n] + [ids[n]];
    }
  }

  lemma {:induction false} KeepOrdered(ids: seq<string>, z: ZSet, min: Option<real>, max: Option<real>)
    requires Ordered(ids, z)
    ensures Ordered(Keep(ids, z, min, max), z)
  {
    if ids == [] {
    } else {
      var n := |ids| - 1;
      var kept := Keep(ids[..n], z, min, max);
      KeepOrdered(ids[..n], z, min, max);
      KeptBelowLast(ids, z, min, max);
      OrderedSnoc(kept, ids[n], z);
      hide Ordered;
    }
  }

  lemma KeptBelowLast(ids: seq<string>, z: ZSet, min: Option<real>, max: Option<real>)
    requires ids != [] && Ordered(ids, z)
    ensures var n := |ids| - 1;
            var kept := Keep(ids[..n], z, min, max);
            forall i | 0 <= i < |kept| :: kept[i] in z && kept[i] != ids[n] && z[kept[i]] <= z[ids[n]]
  {
    var n := |ids| - 1;
    var kept := Keep(ids[..n], z, min, max);
    KeepMembers(ids[..n], z, min, max);
    hide Keep;
    forall i | 0 <= i < |kept| ensures kept[i] in z && kept[i] != ids[n] && z[kept[i]] <= z[ids[n]] {
      assert kept[i] in kept;
      var j :| 0 <= j < n && ids[..n][j] == kept[i];
    }
  }

  lemma OrderedSnoc(ids: seq<string>, id: string, z: ZSet)
    requires Ordered(ids, z) && id in z && forall i | 0 <= i < |ids| :: ids[i] != id && z[ids[i]] <= z[id]
    ensures Ordered(ids + [id], z)
  {
  }

  lemma RankedOrdered(z: ZSet)
    ensures Ordered(Ranked(z), z)
  {
    RankedOrder(z);
    var r := Ranked(z);
    forall i, j | 0 <= i < j < |r| ensures z[r[i]] <= z[r[j]] { assert Before(z, r[i], r[j]); }
  }

  /** The members in a score range, counted. */
  function InScore(z: ZSet, min: Option<real>, max: Option<real>): set<string> {
    set id | id in z && InRange(z[id], min, max)
  }

  lemma KeptIsRange(z: ZSet, min: Option<real>, max: Option<real>)
    ensures Ordered(Keep(Ranked(z), z, min, max), z)
    ensures SetOf(Keep(Ranked(z), z, min, max)) == InScore(z, min, max)
    ensures |Keep(Ranked(z), z, min, max)| == |InScore(z, min, max)|
  {
    RankedOrdered(z);
    RankedMembers(z);
    KeepOrdered(Ranked(z), z, min, max);
    KeepMembers(Ranked(z), z, min, max);
    PoolRuns.SizeOfIds(Keep(Ranked(z), z, min, max));
  }

  /** Without bounds nothing is filtered. */
  lemma {:induction false} KeepAll(ids: seq<string>, z: ZSet)
    requires forall id | id in ids :: id in z
    ensures Keep(ids, z, None, None) == ids
  {
    if ids == [] {
    } else {
      KeepAll(ids[..|ids| - 1], z);
      assert ids == ids[..|ids| - 1] + [ids[|ids| - 1]];
    }
  }

  /** The pull script's ZRANGE shortcut gives the ZRANGEBYSCORE answer exactly when
      at least one element is asked for or the set is empty. */
  lemma FastPathIff(z: ZSet, n: int)
    ensures RangeTo(z, n - 1) == RangeByScore(z, None, None, n) <==> n >= 1 || z == map[]
  {
    RankedMembers(z);
    KeepAll(Ranked(z), z);
    RankedSize(z);
    hide Ranked;
    hide Keep;
    CutsCompared(z, Ranked(z), n);
  }

  lemma RankedSize(z: ZSet)
    ensures |Ranked(z)| == 0 <==> z == map[]
  {
  }

  lemma CutsCompared(z: ZSet, ranked: seq<string>, n: int)
    requires ranked == Ranked(z)
    ensures RangeTo(z, n - 1) == Limit(ranked, n) <==> n >= 1 || |ranked| == 0
  {
    hide Ranked;
    if n <= 0 && |ranked| > 0 {
      assert |RangeTo(z, n - 1)| != |Limit(ranked, n)|;
    }
  }

  /** `r` holds members of `due` in descending score, and nothing due that scores higher is left out. */
  ghost predicate HighestFirst(z: ZSet, due: set<string>, r: seq<string>) {
    && (forall id | id in due :: id in z) && (forall i | 0 <= i < |r| :: r[i] in due)
    && (forall i, j | 0 <= i < j < |r| :: z[r[j]] <= z[r[i]])
    && (forall i, other | 0 <= i < |r| && other in due && other !in r :: z[other] <= z[r[i]])
  }

  lemma EndIsKept(kept: seq<string>, n: nat, j: nat)
    requires j < |kept|
    ensures var r := Limit(Reverse(kept), n); |kept| - 1 - j < |r| ==> kept[j] in r
  {
    var r := Limit(Reverse(kept), n);
    assert |kept| - 1 - j < |r| ==> r[|kept| - 1 - j] == kept[j];
  }

  lemma ReverseHighest(z: ZSet, due: set<string>, kept: seq<string>, n: nat)
    requires Ordered(kept, z) && SetOf(kept) == due
    ensures HighestFirst(z, due, Limit(Reverse(kept), n))
  {
    var r, last := Limit(Reverse(kept), n), |kept| - 1;
    forall i | 0 <= i < |r| ensures r[i] == kept[last - i] && r[i] in due {
      assert kept[last - i] in SetOf(kept);
    }
    forall id | id in due ensures id in kept { assert id in SetOf(kept); }
    forall i, other | 0 <= i < |r| && other in due && other !in r ensures z[other] <= z[r[i]] {
      var j :| 0 <= j < |kept| && kept[j] == other;
      EndIsKept(kept, n, j);
    }
  }

  lemma RevRangeFacts(z: ZSet, max: real, min: real, n: nat)
    ensures var r, due := RevRangeByScore(z, max, min, n), InScore(z, Some(min), Some(max));
            && NoRepeats(r) && SetOf(r) <= due && HighestFirst(z, due, r)
            && |r| == if |due| < n then |due| else n
  {
    var kept := Keep(Ranked(z), z, Some(min), Some(max));
    KeptIsRange(z, Some(min), Some(max));
    hide Keep;
    hide Ranked;
    ReverseHighest(z, InScore(z, Some(min), Some(max)), kept, n);
    hide InScore;
  }
}
