/** Queue configurations: a local cache with expiring entries in front of storage
    (queue_configuration_service.go). A configuration is its maximum number of elements. */
module Configuration {
  import opened StorageModel
  import opened MemoryStorages

  /** Stored configurations and the unexpired entries of the local cache. */
  datatype Configs = Configs(stored: map<string, int>, cached: map<string, int>)

  const NONE := Configs(map[], map[])

  /** A flush empties storage only: the local cache keeps its entries until they expire. */
  datatype Call = Edit(queue: string, maxElements: int) | Get(queue: string) | Expire(queue: string) | Flush

  function StoredOrZero(stored: map<string, int>, queue: string): int {
    if queue in stored then stored[queue] else 0
  }

  function Apply(c: Configs, call: Call): Configs {
    match call
    case Edit(queue, maxElements) =>
      if maxElements == 0 then c
      else if queue !in c.cached then c.(stored := StoreLimit(c.stored, queue, maxElements))
      else if c.cached[queue] != maxElements then Configs(StoreLimit(c.stored, queue, maxElements), c.cached - {queue})
      else c
    case Get(queue) =>
      if queue in c.cached then c else c.(cached := c.cached[queue := StoredOrZero(c.stored, queue)])
    case Expire(queue) => c.(cached := c.cached - {queue})
    case Flush => c.(stored := map[])
  }

  function Run(calls: seq<Call>): Configs {
    if calls == [] then NONE else Apply(Run(calls[..|calls| - 1]), calls[|calls| - 1])
  }

  lemma RunSnoc(calls: seq<Call>, call: Call)
    ensures Run(calls + [call]) == Apply(Run(calls), call)
  {
    assert (calls + [call])[..|calls|] == calls;
  }

  /** What a read answers. */
  function Answer(c: Configs, queue: string): int {
    if queue in c.cached then c.cached[queue] else StoredOrZero(c.stored, queue)
  }

  /** What a reader should see: the last non-zero edit since the last flush, negative meaning 0,
      or 0 if there was none. */
  function LastEdit(calls: seq<Call>, queue: string): (r: int)
    ensures r >= 0
  {
    if calls == [] then 0
    else
      var last := calls[|calls| - 1];
      if last.Flush? then 0
      else if last.Edit? && last.queue == queue && last.maxElements != 0 then
        if last.maxElements < 0 then 0 else last.maxElements
      else
        LastEdit(calls[..|calls| - 1], queue)
  }

  /** Every flush finds the queue uncached, or cached with 0. */
  predicate CleanFlushes(calls: seq<Call>, queue: string) {
    calls == [] ||
    var n := |calls| - 1;
    CleanFlushes(calls[..n], queue)
    && (calls[n].Flush? && queue in Run(calls[..n]).cached ==> Run(calls[..n]).cached[queue] == 0)
  }

  /** A read after any part of the calls answers the last edit. */
  predicate ReadsLastEdit(calls: seq<Call>, queue: string) {
    Answer(Run(calls), queue) == LastEdit(calls, queue)
    && (calls == [] || ReadsLastEdit(calls[..|calls| - 1], queue))
  }

  /** The cache never disagrees with storage, although an edit equal to the cached value skips storage. */
  lemma {:induction false} CacheAgreesWithStorage(calls: seq<Call>, queue: string)
    requires CleanFlushes(calls, queue)
    ensures StoredOrZero(Run(calls).stored, queue) == LastEdit(calls, queue) == Answer(Run(calls), queue)
  {
    if calls == [] {
    } else {
      CacheAgreesWithStorage(calls[..|calls| - 1], queue);
    }
  }

  /** Reads answer the last edit throughout a sequence of calls if and only if every flush is clean. */
  lemma {:induction false} ReadsLastEditIff(calls: seq<Call>, queue: string)
    ensures ReadsLastEdit(calls, queue) <==> CleanFlushes(calls, queue)
  {
    if calls == [] {
    } else {
      var n := |calls| - 1;
      ReadsLastEditIff(calls[..n], queue);
      if CleanFlushes(calls, queue) {
        CacheAgreesWithStorage(calls, queue);
      } else if CleanFlushes(calls[..n], queue) {
        CacheAgreesWithStorage(calls[..n], queue);
      }
    }
  }

  /** After a flush the local cache can swallow an edit for good: the edit is answered until the
      entry expires, and then the queue has no limit. */
  lemma FlushSwallowsAnEdit(queue: string)
    ensures var calls := [Edit(queue, 5), Get(queue), Flush, Edit(queue, 5), Expire(queue)];
            LastEdit(calls, queue) == 5 && Answer(Run(calls), queue) == 0
  {
    var edit, get := Edit(queue, 5), Get(queue);
    assert [edit] == [] + [edit];
    assert [edit, get] == [edit] + [get];
    assert [edit, get, Flush] == [edit, get] + [Flush];
    assert [edit, get, Flush, edit] == [edit, get, Flush] + [edit];
    assert [edit, get, Flush, edit, Expire(queue)] == [edit, get, Flush, edit] + [Expire(queue)];
    RunSnoc([], edit);
    RunSnoc([edit], get);
    RunSnoc([edit, get], Flush);
    RunSnoc([edit, get, Flush], edit);
    RunSnoc([edit, get, Flush, edit], Expire(queue));
  }

  class ConfigurationService {
    const storage: MemoryStorage
    var localCache: map<string, int>
    ghost var calls: seq<Call>

    ghost predicate Valid()
      reads this, storage
    {
      storage.Valid() && Configs(storage.configurations, localCache) == Run(calls)
    }

    constructor (storage: MemoryStorage)
      requires storage.Valid() && storage.configurations == map[]
      ensures this.storage == storage && Valid() && calls == []
    {
      this.storage, localCache, calls := storage, map[], [];
    }

    ghost method Record(call: Call)
      modifies `calls
      ensures calls == old(calls) + [call]
      ensures Run(calls) == Apply(Run(old(calls)), call)
    {
      RunSnoc(calls, call);
      calls := calls + [call];
    }

    method EditQueueConfiguration(queue: string, maxElements: int)
      requires Valid()
      modifies `localCache, `calls, storage`configurations
      ensures Valid() && calls == old(calls) + [Edit(queue, maxElements)]
    {
      Record(Edit(queue, maxElements));
      if maxElements == 0 {
        return;
      }
      if queue !in localCache {
        storage.EditQueueConfiguration(queue, maxElements);
        return;
      }
      if localCache[queue] != maxElements {
        storage.EditQueueConfiguration(queue, maxElements);
        localCache := localCache - {queue};
      }
    }

    /** A read answers the last edit of any calls with clean flushes. */
    method GetQueueConfiguration(queue: string) returns (maxElements: int)
      requires Valid()
      modifies `localCache, `calls
      ensures Valid() && calls == old(calls) + [Get(queue)]
      ensures maxElements == Answer(old(Configs(storage.configurations, localCache)), queue)
      ensures CleanFlushes(old(calls), queue) ==> maxElements == LastEdit(old(calls), queue)
    {
      if CleanFlushes(calls, queue) {
        CacheAgreesWithStorage(calls, queue);
      }
      Record(Get(queue));
      if queue in localCache {
        return localCache[queue];
      }
      var stored := storage.GetQueueConfiguration(queue);
      maxElements := if stored.Some? then stored.value else 0;
      localCache := localCache[queue := maxElements];
    }

    /** Storage is flushed; the local cache is not told. */
    method FlushStorage()
      requires Valid()
      modifies `calls, storage`docs, storage`configurations
      ensures Valid() && calls == old(calls) + [Flush]
    {
      Record(Flush);
      var _ := storage.Flush();
    }

    /** An entry of the local cache reaches its time to live. */
    method ExpireEntry(queue: string)
      requires Valid()
      modifies `localCache, `calls
      ensures Valid() && calls == old(calls) + [Expire(queue)]
    {
      Record(Expire(queue));
      localCache := localCache - {queue};
    }
  }
}
