/** The in-memory storage of memory_storage.go, and the chunked deletion of mongo_storage.go.
    Iteration over a Go map has no fixed order; here an arbitrary key is picked each time. */
module MemoryStorages {
  import opened Score
  import opened StorageModel
  import opened MemoryCaches

  class MemoryStorage {
    var docs: Docs
    var counter: int
    var configurations: map<string, int>

    ghost function State(): Shelf
      reads this
    {
      Shelf(docs, counter)
    }

    ghost predicate Valid()
      reads this
    {
      ShelfInv(State())
    }

    constructor ()
      ensures State() == Shelf(map[], 0) && Valid() && configurations == map[]
    {
      docs, counter, configurations := map[], 0, map[];
    }

    /** Drops documents and configurations and counts both; the counter goes on. */
    method Flush() returns (count: int)
      requires Valid()
      modifies `docs, `configurations
      ensures State() == Shelf(map[], old(counter)) && Valid() && configurations == map[]
      ensures count == |old(docs)| + |old(configurations)|
    {
      count := |docs|;
      count := count + |configurations|;
      docs := map[];
      configurations := map[];
    }

    /** Ignores 0 and stores a negative limit as 0. */
    method EditQueueConfiguration(queue: string, maxElements: int)
      modifies `configurations
      ensures configurations == StoreLimit(old(configurations), queue, maxElements)
    {
      if maxElements == 0 {
        return;
      }
      var limit := maxElements;
      if limit < 0 {
        limit := 0;
      }
      configurations := configurations[queue := limit];
    }

    method GetQueueConfiguration(queue: string) returns (maxElements: Option<int>)
      ensures maxElements.Some? <==> queue in configurations
      ensures maxElements.Some? ==> maxElements.value == configurations[queue]
    {
      if queue in configurations {
        return Some(configurations[queue]);
      }
      return None;
    }

    /** Stores messages one by one; a message without queue or id stops it, and what came before stays stored. */
    method Insert(messages: seq<NewMessage>) returns (r: Result<(int, int)>)
      requires Valid()
      modifies `docs, `counter
      ensures Valid()
      ensures r.Ok? <==> forall i | 0 <= i < |messages| :: messages[i].Valid()
      ensures r.Ok? ==> State() == Put(old(State()), messages)
      ensures r.Ok? ==> r.value.0 == |docs| - |old(docs)| && r.value.0 + r.value.1 == |messages|
      ensures r.Err? ==> exists i :: 0 <= i < |messages| && !messages[i].Valid()
                                     && (forall j | 0 <= j < i :: messages[j].Valid())
                                     && State() == Put(old(State()), messages[..i])
    {
      hide ShelfInv;
      var inserted, modified := 0, 0;
      for i := 0 to |messages|
        invariant Valid()
        invariant forall j | 0 <= j < i :: messages[j].Valid()
        invariant State() == Put(old(State()), messages[..i])
        invariant inserted == |docs| - |old(docs)| && inserted + modified == i
      {
        var m := messages[i];
        if m.queue == "" {
          return Err("message has a invalid queue");
        }
        if m.id == "" {
          return Err("message has a invalid ID");
        }
        assert messages[..i + 1][..i] == messages[..i];
        PutKeepsInv(State(), [m]);
        PutSingle(State(), m);
        var key := JoinKey(m.queue, m.id);
        if key in docs {
          modified := modified + 1;
          docs := docs[key := docs[key].(expiry := m.expiry, content := m.content)];
        } else {
          inserted := inserted + 1;
          counter := counter + 1;
          docs := docs[key := Doc(m.queue, m.id, counter, m.score, m.expiry, m.timeless, 0, m.content)];
        }
      }
      assert messages[..|messages|] == messages;
      r := Ok((inserted, modified));
    }

    /** Collects the selected documents in no particular order, sorts them and cuts the result. */
    method Find(now: int, f: Filter, sort: Sort, limit: nat) returns (res: seq<Doc>)
      requires Valid()
      ensures Answers(docs, now, f, sort, limit, res)
    {
      var messages: seq<Doc> := [];
      var todo := docs.Keys;
      while todo != {}
        invariant todo <= docs.Keys
        invariant DistinctDocs(messages)
        invariant forall d :: d in messages <==> Stored(docs, d) && KeyOf(d) !in todo && Selected(d, f, now)
        decreases todo
      {
        var k :| k in todo;
        todo := todo - {k};
        if Selected(docs[k], f, now) {
          assert Stored(docs, docs[k]) && docs[k] !in messages;
          messages := messages + [docs[k]];
        }
      }
      CutAnswers(docs, now, f, sort, limit, messages);
      res := SortDocs(sort, messages);
      if limit > 0 && |res| > limit {
        res := res[..limit];
      }
    }

    /** Counts matching documents, expired or not. */
    method Count(f: Filter) returns (count: int)
      ensures count == CountMatching(docs, f)
    {
      count := 0;
      var todo := docs.Keys;
      ghost var counted: set<string> := {};
      while todo != {}
        invariant todo <= docs.Keys
        invariant counted == set k | k in docs && k !in todo && Matches(docs[k], f)
        invariant count == |counted|
        decreases todo
      {
        var k :| k in todo;
        todo := todo - {k};
        if Matches(docs[k], f) {
          count := count + 1;
          counted := counted + {k};
        }
      }
      assert counted == set k | k in docs && Matches(docs[k], f);
    }

    /** Removes the given ids of a queue. A document counts once for each time its id is listed. */
    method Remove(queue: string, ids: seq<string>) returns (deleted: int)
      requires Valid()
      modifies `docs
      ensures docs == Without(old(docs), queue, ids) && Valid()
      ensures deleted == Hits(old(docs), queue, ids)
    {
      hide ShelfInv;
      deleted := 0;
      var todo := docs.Keys;
      ghost var before, gone: set<string> := docs, {};
      assert Places(queue, ids, gone) == {};
      while todo != {}
        invariant todo <= before.Keys && gone <= before.Keys
        invariant forall k | k in before :: k in gone <==> k !in todo && Named(before[k], queue, ids)
        invariant docs == before - gone
        invariant deleted == |Places(queue, ids, gone)|
        decreases todo
      {
        var k :| k in todo;
        todo := todo - {k};
        if docs[k].queue == queue {
          var hits := Occurrences(ids, docs[k].id);
          OwnKey(Shelf(before, counter), k);
          MorePlaces(queue, ids, gone, docs[k].id);
          if hits > 0 {
            docs := docs - {k};
            gone := gone + {k};
            deleted := deleted + hits;
          }
        }
      }
      HitsAreGone(Shelf(before, counter), queue, ids, gone);
      RestIsWithout(before, queue, ids, gone);
      WithoutKeepsInv(Shelf(before, counter), queue, ids);
    }

    /** The storage part of Ack and Nack. */
    method Rescore(queue: string, id: string, score: real, lockMs: int) returns (modified: int)
      requires Valid()
      modifies `docs
      ensures docs == StorageModel.Rescore(old(docs), queue, id, score, lockMs) && Valid()
      ensures modified == if JoinKey(queue, id) in docs then 1 else 0
    {
      var key := JoinKey(queue, id);
      if key !in docs {
        return 0;
      }
      docs := docs[key := docs[key].(score := score, lockMs := lockMs)];
      return 1;
    }
  }

  predicate Named(d: Doc, queue: string, ids: seq<string>) {
    d.queue == queue && d.id in ids
  }

  lemma WithoutKeepsInv(s: Shelf, queue: string, ids: seq<string>)
    requires ShelfInv(s)
    ensures ShelfInv(s.(docs := Without(s.docs, queue, ids)))
  {
  }

  /** The positions of a list that name a removed document. */
  ghost function Places(queue: string, ids: seq<string>, gone: set<string>): set<int> {
    set i | 0 <= i < |ids| && JoinKey(queue, ids[i]) in gone
  }

  lemma OwnKey(s: Shelf, k: string)
    requires ShelfInv(s) && k in s.docs
    ensures JoinKey(s.docs[k].queue, s.docs[k].id) == k
  {
  }

  /** Taking one more document adds the positions of its id. */
  lemma MorePlaces(queue: string, ids: seq<string>, gone: set<string>, id: string)
    requires JoinKey(queue, id) !in gone
    ensures |Places(queue, ids, gone + {JoinKey(queue, id)})| == |Places(queue, ids, gone)| + |Listed(ids, id)|
  {
    forall i | 0 <= i < |ids| ensures JoinKey(queue, ids[i]) == JoinKey(queue, id) <==> ids[i] == id {
      KeysCollideIff(queue, ids[i], queue, id);
    }
    assert Places(queue, ids, gone + {JoinKey(queue, id)}) == Places(queue, ids, gone) + Listed(ids, id);
    assert Places(queue, ids, gone) !! Listed(ids, id);
  }

  lemma HitsAreGone(s: Shelf, queue: string, ids: seq<string>, gone: set<string>)
    requires ShelfInv(s) && gone <= s.docs.Keys && forall k | k in s.docs :: k in gone <==> Named(s.docs[k], queue, ids)
    ensures |Places(queue, ids, gone)| == Hits(s.docs, queue, ids)
  {
    forall i | 0 <= i < |ids| ensures JoinKey(queue, ids[i]) in gone <==> HasDoc(s.docs, queue, ids[i]) {
      var k := JoinKey(queue, ids[i]);
      if k in gone {
        OwnKey(s, k);
        KeysCollideIff(queue, ids[i], queue, s.docs[k].id);
      }
    }
    assert Places(queue, ids, gone) == set i | 0 <= i < |ids| && HasDoc(s.docs, queue, ids[i]);
  }

  lemma RestIsWithout(docs: Docs, queue: string, ids: seq<string>, gone: set<string>)
    requires forall k | k in docs :: k in gone <==> Named(docs[k], queue, ids)
    ensures docs - gone == Without(docs, queue, ids)
  {
  }

  /** The positions of an id in a list. */
  ghost function Listed(ids: seq<string>, id: string): set<int> {
    set i | 0 <= i < |ids| && ids[i] == id
  }

  method Occurrences(ids: seq<string>, id: string) returns (n: int)
    ensures n == |Listed(ids, id)| && (n > 0 <==> id in ids)
  {
    n := 0;
    assert Listed(ids[..0], id) == {};
    for i := 0 to |ids|
      invariant n == |Listed(ids[..i], id)| && (n > 0 <==> id in ids[..i])
    {
      assert Listed(ids[..i + 1], id) == Listed(ids[..i], id) + if ids[i] == id then {i} else {};
      if ids[i] == id {
        n := n + 1;
      }
    }
    assert ids[..|ids|] == ids;
  }

  // ---------- chunked deletion ----------

  const DELETE_CHUNK: nat := 100

  lemma WithoutSplits(docs: Docs, queue: string, a: seq<string>, b: seq<string>)
    ensures Without(Without(docs, queue, a), queue, b) == Without(docs, queue, a + b)
  {
  }

  /** MongoStorage.Remove: deleting in chunks of 100 leaves the documents and the total of one deletion. */
  method RemoveInChunks(docs: Docs, queue: string, ids: seq<string>) returns (left: Docs, deleted: int)
    ensures left == Without(docs, queue, ids)
    ensures deleted == |docs| - |left|
  {
    left, deleted := docs, 0;
    var i := 0;
    while i < |ids|
      invariant 0 <= i
      invariant left == Without(docs, queue, if i < |ids| then ids[..i] else ids)
      invariant deleted == |docs| - |left|
    {
      var end := if i + DELETE_CHUNK > |ids| then |ids| else i + DELETE_CHUNK;
      var chunk := ids[i..end];
      WithoutSplits(docs, queue, ids[..i], chunk);
      assert ids[..i] + chunk == ids[..end] && ids[..|ids|] == ids;
      var rest := Without(left, queue, chunk);
      deleted := deleted + (|left| - |rest|);
      left := rest;
      i := i + DELETE_CHUNK;
    }
  }
}
