/** What the counts of a removal mean: the two caches and the two storages count differently. */
module RemovalCounts {
  import opened Pools
  import opened StorageModel
  import R = RedisPools

  // ---------- storage ----------

  /** A stored document is listed twice. */
  predicate ListedAgain(docs: Docs, queue: string, ids: seq<string>) {
    exists i, j | 0 <= i < j < |ids| :: ids[i] == ids[j] && HasDoc(docs, queue, ids[j])
  }

  lemma PlacesHit(docs: Docs, queue: string, ids: seq<string>) returns (hits: set<int>)
    ensures |hits| == Hits(docs, queue, ids)
    ensures forall i :: i in hits <==> 0 <= i < |ids| && HasDoc(docs, queue, ids[i])
  {
    hits := set i | 0 <= i < |ids| && HasDoc(docs, queue, ids[i]);
  }

  lemma HitsSnoc(docs: Docs, queue: string, ids: seq<string>, id: string)
    ensures Hits(docs, queue, ids + [id]) == Hits(docs, queue, ids) + if HasDoc(docs, queue, id) then 1 else 0
  {
    hide HasDoc;
    var both := ids + [id];
    var before := PlacesHit(docs, queue, ids);
    var after := PlacesHit(docs, queue, both);
    forall i ensures i in after <==> i in before || (i == |ids| && HasDoc(docs, queue, id)) {
      if 0 <= i < |ids| {
        assert both[i] == ids[i];
      }
    }
    assert after == before + if HasDoc(docs, queue, id) then {|ids|} else {};
  }

  lemma WithoutSnoc(docs: Docs, queue: string, ids: seq<string>, id: string)
    requires WellKeyed(docs)
    ensures |Without(docs, queue, ids + [id])|
            == |Without(docs, queue, ids)| - if HasDoc(docs, queue, id) && id !in ids then 1 else 0
  {
    var before, after, k := Without(docs, queue, ids), Without(docs, queue, ids + [id]), JoinKey(queue, id);
    if HasDoc(docs, queue, id) && id !in ids {
      assert k in before && k !in after;
      assert before == after[k := docs[k]];
    } else {
      assert after == before;
    }
  }

  lemma ListedAgainSnoc(docs: Docs, queue: string, ids: seq<string>, id: string)
    ensures ListedAgain(docs, queue, ids + [id])
            <==> ListedAgain(docs, queue, ids) || (HasDoc(docs, queue, id) && id in ids)
  {
    hide HasDoc;
    var both := ids + [id];
    forall i | 0 <= i < |ids| ensures both[i] == ids[i] { }
    assert both[|ids|] == id;
    if i, j :| 0 <= i < j < |ids| && ids[i] == ids[j] && HasDoc(docs, queue, ids[j]) {
      assert both[i] == both[j] && HasDoc(docs, queue, both[j]);
    }
    if HasDoc(docs, queue, id) && id in ids {
      var i :| 0 <= i < |ids| && ids[i] == id;
      assert both[i] == both[|ids|] && HasDoc(docs, queue, both[|ids|]);
    }
  }

  /** The in-memory storage reports the number of documents that are gone exactly when no stored
      document is listed twice; else it reports more. */
  lemma {:induction false} DeletedCountIff(docs: Docs, queue: string, ids: seq<string>)
    requires WellKeyed(docs)
    ensures Hits(docs, queue, ids) >= |docs| - |Without(docs, queue, ids)|
    ensures Hits(docs, queue, ids) == |docs| - |Without(docs, queue, ids)| <==> !ListedAgain(docs, queue, ids)
  {
    if ids == [] {
      assert Without(docs, queue, ids) == docs;
      var hits := PlacesHit(docs, queue, ids);
      assert hits == {};
    } else {
      var rest, id := ids[..|ids| - 1], ids[|ids| - 1];
      assert ids == rest + [id];
      hide Hits;
      hide Without;
      hide ListedAgain;
      DeletedCountIff(docs, queue, rest);
      HitsSnoc(docs, queue, rest, id);
      WithoutSnoc(docs, queue, rest, id);
      ListedAgainSnoc(docs, queue, rest, id);
    }
  }

  // ---------- the Redis cache ----------

  /** The ids that are locked with a score. */
  ghost function ScoredLocks(t: Table): set<string> {
    set id | id in t && t[id].Locked? && t[id].score != -1.0
  }

  lemma SplitSize(a: set<string>, b: set<string>, g: set<string>)
    requires a !! b
    ensures |(a + b) * g| == |a * g| + |b * g|
  {
    assert (a + b) * g == a * g + b * g;
  }

  lemma MainSets(z: R.ZPools)
    requires R.Inv(z)
    ensures R.Abs(z).Keys == z.active.Keys + z.processing.Keys + z.lockAck.Keys + z.lockNack.Keys
    ensures z.active.Keys !! z.processing.Keys && (z.active.Keys + z.processing.Keys) !! z.lockAck.Keys
    ensures (z.active.Keys + z.processing.Keys + z.lockAck.Keys) !! z.lockNack.Keys
  {
    forall id
      ensures !(id in z.active && id in z.processing)
      ensures !((id in z.active || id in z.processing) && id in z.lockAck)
      ensures !((id in z.active || id in z.processing || id in z.lockAck) && id in z.lockNack)
    {
      assert R.MapsOf(z).InOnePool(id);
    }
  }

  lemma ScoreSets(z: R.ZPools)
    requires R.Inv(z)
    ensures ScoredLocks(R.Abs(z)) == z.ackScore.Keys + z.nackScore.Keys && z.ackScore.Keys !! z.nackScore.Keys
  {
    forall id ensures id in ScoredLocks(R.Abs(z)) <==> id in z.ackScore || id in z.nackScore {
      assert R.MapsOf(z).InOnePool(id);
    }
    forall id ensures !(id in z.ackScore && id in z.nackScore) {
      assert R.MapsOf(z).InOnePool(id);
    }
  }

  /** A removal on Redis reports the cached ids it was asked for, and those locked with a score once
      more. It reports the number of ids that are gone, as the in-memory cache does, exactly when none
      of them was locked with a score. */
  lemma RedisRemovalCount(z: R.ZPools, ids: seq<string>)
    requires R.Inv(z)
    ensures R.Removed(z, ids)
            == |R.Abs(z).Keys * SetOf(ids)| + |ScoredLocks(R.Abs(z)) * SetOf(ids)|
    ensures R.Removed(z, ids) == |R.Abs(z).Keys * SetOf(ids)| <==> ScoredLocks(R.Abs(z)) !! SetOf(ids)
  {
    var g := SetOf(ids);
    MainSets(z);
    ScoreSets(z);
    hide R.Abs;
    hide R.Inv;
    hide ScoredLocks;
    SplitSize(z.active.Keys, z.processing.Keys, g);
    SplitSize(z.active.Keys + z.processing.Keys, z.lockAck.Keys, g);
    SplitSize(z.active.Keys + z.processing.Keys + z.lockAck.Keys, z.lockNack.Keys, g);
    SplitSize(z.ackScore.Keys, z.nackScore.Keys, g);
    var scored := ScoredLocks(R.Abs(z));
    assert scored !! g <==> scored * g == {};
  }
}
