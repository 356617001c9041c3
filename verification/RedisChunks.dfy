/** The Redis cache sends long id lists in chunks. When does that change nothing? */
module RedisChunks {
  import opened Pools
  import opened RankedSets
  import opened RedisPools

  const REMOVE_CHUNK: nat := 4000
  const INSERT_CHUNK: nat := 2000

  // ---------- removal ----------

  lemma RemoveFromSet(s: ZSet, x: set<string>, y: set<string>)
    ensures s - x - y == s - (x + y)
    ensures |s.Keys * (x + y)| == |s.Keys * x| + |(s - x).Keys * y|
  {
    assert s.Keys * (x + y) == (s.Keys * x) + ((s - x).Keys * y);
  }

  /** Removing in two calls leaves the same sets and counts the same elements. */
  lemma RemoveSplits(z: ZPools, a: seq<string>, b: seq<string>)
    ensures RunRemove(RunRemove(z, a), b) == RunRemove(z, a + b)
    ensures Removed(z, a) + Removed(RunRemove(z, a), b) == Removed(z, a + b)
  {
    var x, y := SetOf(a), SetOf(b);
    assert SetOf(a + b) == x + y;
    RemoveFromSet(z.active, x, y);
    RemoveFromSet(z.processing, x, y);
    RemoveFromSet(z.lockAck, x, y);
    RemoveFromSet(z.lockNack, x, y);
    RemoveFromSet(z.ackScore, x, y);
    RemoveFromSet(z.nackScore, x, y);
  }

  // ---------- insertion ----------

  function Size(n: nat): nat {
    if n < INSERT_CHUNK then n else INSERT_CHUNK
  }

  /** One add script per chunk, in order. */
  function AddChunks(z: ZPools, messages: seq<Msg>): (ZPools, seq<string>)
    decreases |messages|
  {
    if messages == [] then (z, [])
    else
      var c := Size(|messages|);
      var (z1, ids1) := RunAdd(z, messages[..c]);
      var (z2, ids2) := AddChunks(z1, messages[c..]);
      (z2, ids1 + ids2)
  }

  /** A new id is sent in two different chunks. */
  ghost predicate Straddles(z: ZPools, messages: seq<Msg>) {
    exists i, j :: Clash(z, messages, i, j)
  }

  lemma {:induction false} FreshSplits(z: ZPools, a: seq<Msg>, b: seq<Msg>)
    ensures Fresh(z, a + b) == Fresh(z, a) + Fresh(z, b)
  {
    if b == [] {
      assert a + b == a;
    } else {
      var n := |b| - 1;
      FreshSplits(z, a, b[..n]);
      assert (a + b)[..|a| + n] == a + b[..n];
    }
  }

  lemma {:induction false} LatestSplits(a: seq<Msg>, b: seq<Msg>)
    ensures Latest(a + b) == Latest(a) + Latest(b)
  {
    if b == [] {
      assert a + b == a;
    } else {
      var n := |b| - 1;
      LatestSplits(a, b[..n]);
      assert (a + b)[..|a| + n] == a + b[..n];
    }
  }

  /** `a` already brought some new id of `b`. */
  ghost predicate Overlaps(z: ZPools, a: seq<Msg>, b: seq<Msg>) {
    exists i | 0 <= i < |b| :: b[i].id in Latest(a) && !z.Exists(b[i].id)
  }

  lemma ExistsAfterAdd(z: ZPools, a: seq<Msg>, id: string)
    ensures RunAdd(z, a).0.Exists(id) <==> z.Exists(id) || id in Latest(a)
  {
    FreshMembers(z, a);
  }

  lemma OverlapsSnoc(z: ZPools, a: seq<Msg>, b: seq<Msg>, m: Msg)
    ensures Overlaps(z, a, b + [m]) <==> Overlaps(z, a, b) || (m.id in Latest(a) && !z.Exists(m.id))
  {
    var both := b + [m];
    hide Latest;
    forall i | 0 <= i < |b| ensures both[i] == b[i] { }
    if i :| 0 <= i < |b| && b[i].id in Latest(a) && !z.Exists(b[i].id) {
      assert both[i].id in Latest(a);
    }
    if m.id in Latest(a) && !z.Exists(m.id) {
      assert both[|b|].id in Latest(a);
    }
  }

  lemma FreshSnoc(z: ZPools, b: seq<Msg>, m: Msg)
    ensures Fresh(z, b + [m]) == if z.Exists(m.id) then Fresh(z, b) else Fresh(z, b) + [m]
  {
    assert (b + [m])[..|b|] == b;
  }

  lemma {:induction false} FreshAfterAdd(z: ZPools, a: seq<Msg>, b: seq<Msg>)
    ensures var later := Fresh(RunAdd(z, a).0, b);
            && |later| <= |Fresh(z, b)|
            && (|later| == |Fresh(z, b)| <==> !Overlaps(z, a, b))
            && (!Overlaps(z, a, b) ==> later == Fresh(z, b))
  {
    if b == [] {
    } else {
      var rest, m := b[..|b| - 1], b[|b| - 1];
      assert b == rest + [m];
      FreshAfterAdd(z, a, rest);
      ExistsAfterAdd(z, a, m.id);
      OverlapsSnoc(z, a, rest, m);
      FreshSnoc(z, rest, m);
      FreshSnoc(RunAdd(z, a).0, rest, m);
      hide *;
    }
  }

  lemma {:induction false} LatestMembers(a: seq<Msg>, id: string)
    ensures id in Latest(a) <==> exists i | 0 <= i < |a| :: a[i].id == id
  {
    if a == [] {
    } else {
      var n := |a| - 1;
      LatestMembers(a[..n], id);
      if id in Latest(a[..n]) {
        var i :| 0 <= i < n && a[..n][i].id == id;
        assert a[i].id == id;
      }
    }
  }

  /** Positions i < j repeat a new id in different chunks. */
  predicate Clash(z: ZPools, messages: seq<Msg>, i: int, j: int) {
    && 0 <= i < j < |messages| && messages[i].id == messages[j].id
    && !z.Exists(messages[i].id) && i / 2000 != j / 2000
  }

  /** Leaving out the first chunk shifts the chunk numbers by one. */
  lemma ChunkShifts(i: int)
    requires i >= INSERT_CHUNK
    ensures (i - INSERT_CHUNK) / INSERT_CHUNK == i / INSERT_CHUNK - 1
  {
  }

  lemma SameFirstChunk(i: int, j: int)
    requires 0 <= i < INSERT_CHUNK && 0 <= j < INSERT_CHUNK
    ensures i / INSERT_CHUNK == j / INSERT_CHUNK
  {
  }

  /** Two positions in different chunks: the second lies after the first chunk, and if the first
      does too, they still lie in different chunks without it. */
  lemma DifferentChunks(i: int, j: int, n: nat)
    requires 0 <= i < j < n && i / INSERT_CHUNK != j / INSERT_CHUNK
    ensures Size(n) == INSERT_CHUNK <= j
    ensures i >= INSERT_CHUNK ==> (i - INSERT_CHUNK) / INSERT_CHUNK != (j - INSERT_CHUNK) / INSERT_CHUNK
  {
    if j < INSERT_CHUNK {
      SameFirstChunk(i, j);
    } else if i >= INSERT_CHUNK {
      ChunkShifts(i);
      ChunkShifts(j);
    }
  }

  lemma ClashSplits(z: ZPools, messages: seq<Msg>, i: int, j: int)
    requires Clash(z, messages, i, j)
    ensures var c := Size(|messages|);
            Overlaps(z, messages[..c], messages[c..])
            || Clash(RunAdd(z, messages[..c]).0, messages[c..], i - c, j - c)
  {
    DifferentChunks(i, j, |messages|);
    var c := Size(|messages|);
    var a, b, id := messages[..c], messages[c..], messages[j].id;
    assert b[j - c].id == id;
    LatestMembers(a, id);
    ExistsAfterAdd(z, a, id);
    hide RunAdd;
    hide Latest;
    if id in Latest(a) {
      assert Overlaps(z, a, b);
    } else {
      assert forall x | 0 <= x < c :: a[x].id != id;
      assert b[i - c].id == id;
    }
  }

  lemma LaterClash(z: ZPools, messages: seq<Msg>, i: int, j: int)
    requires var c := Size(|messages|); Clash(RunAdd(z, messages[..c]).0, messages[c..], i, j)
    ensures Straddles(z, messages)
  {
    var c := Size(|messages|);
    ExistsAfterAdd(z, messages[..c], messages[c..][i].id);
    hide RunAdd;
    assert Clash(z, messages, i + c, j + c);
  }

  lemma OverlapClash(z: ZPools, messages: seq<Msg>, j: int)
    requires var c := Size(|messages|);
             0 <= j < |messages| - c && messages[c + j].id in Latest(messages[..c]) && !z.Exists(messages[c + j].id)
    ensures Straddles(z, messages)
  {
    var c := Size(|messages|);
    LatestMembers(messages[..c], messages[c + j].id);
    var i :| 0 <= i < c && messages[..c][i].id == messages[c + j].id;
    assert Clash(z, messages, i, c + j);
  }

  /** An id straddles chunks when it overlaps the first chunk or straddles the others. */
  lemma StraddlesSplits(z: ZPools, messages: seq<Msg>)
    ensures var c := Size(|messages|);
            Straddles(z, messages)
            <==> Overlaps(z, messages[..c], messages[c..]) || Straddles(RunAdd(z, messages[..c]).0, messages[c..])
  {
    hide RunAdd;
    hide Latest;
    var c := Size(|messages|);
    var a, b := messages[..c], messages[c..];
    var z1 := RunAdd(z, a).0;
    if Straddles(z, messages) {
      var i, j :| Clash(z, messages, i, j);
      ClashSplits(z, messages, i, j);
    }
    if Overlaps(z, a, b) {
      var j :| 0 <= j < |b| && b[j].id in Latest(a) && !z.Exists(b[j].id);
      OverlapClash(z, messages, j);
    }
    if Straddles(z1, b) {
      var i, j :| Clash(z1, b, i, j);
      LaterClash(z, messages, i, j);
    }
  }

  /** Adding `a` and then `b` is adding both at once, unless `a` brought a new id of `b`. */
  lemma AddSplits(z: ZPools, a: seq<Msg>, b: seq<Msg>)
    requires !Overlaps(z, a, b)
    ensures var (z1, ids1) := RunAdd(z, a);
            var (z2, ids2) := RunAdd(z1, b);
            (z2, ids1 + ids2) == RunAdd(z, a + b)
  {
    FreshSplits(z, a, b);
    FreshAfterAdd(z, a, b);
    hide Fresh;
    hide Overlaps;
    JoinParts(z.active, Fresh(z, a), Fresh(z, b));
  }

  lemma JoinParts(active: ZSet, a: seq<Msg>, b: seq<Msg>)
    ensures Names(a + b) == Names(a) + Names(b)
    ensures active + Latest(a + b) == active + Latest(a) + Latest(b)
  {
    LatestSplits(a, b);
    hide Latest;
    MapsAssociate(active, Latest(a), Latest(b));
  }

  lemma MapsAssociate(x: ZSet, y: ZSet, z: ZSet)
    ensures x + (y + z) == x + y + z
  {
  }

  lemma {:induction false} ChunkedReplies(z: ZPools, messages: seq<Msg>)
    ensures |AddChunks(z, messages).1| <= |RunAdd(z, messages).1|
    ensures |AddChunks(z, messages).1| == |RunAdd(z, messages).1| <==> !Straddles(z, messages)
    ensures !Straddles(z, messages) ==> AddChunks(z, messages) == RunAdd(z, messages)
    decreases |messages|
  {
    if messages == [] {
      assert z.active + map[] == z.active;
    } else {
      var c := Size(|messages|);
      var (a, b) := (messages[..c], messages[c..]);
      assert messages == a + b;
      var z1 := RunAdd(z, a).0;
      ChunkedReplies(z1, b);
      StraddlesSplits(z, messages);
      FreshSplits(z, a, b);
      FreshAfterAdd(z, a, b);
      if !Straddles(z, messages) {
        AddSplits(z, a, b);
      }
    }
  }

  /** Chunked insertion gives the state and the reply of one call exactly when no new id is
      sent in two chunks. */
  lemma ChunkingIsInvisibleIff(z: ZPools, messages: seq<Msg>)
    ensures AddChunks(z, messages) == RunAdd(z, messages) <==> !Straddles(z, messages)
  {
    ChunkedReplies(z, messages);
  }
}
