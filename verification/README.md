# Deckard: a verified model

Deckard is a message queue: a storage holds the messages, a cache holds for each queue four pools
of ids (active, processing, locked after an ack, locked after a nack), and housekeeping moves ids
between pools, evicts messages and rebuilds the cache from storage. This project models that
core in Dafny and proves what it keeps over whole runs.

How the files build on each other:

- `Score.dfy`, `Clock.dfy`, `Pools.dfy`, `PoolMaps.dfy`: scores, clock readings, the abstract machine
  of one queue (a map from id to location, and what each cache operation may do to it) and theorems
  about all its runs.
- `EntryLists.dfy`, `MemoryPools.dfy`, `MemoryCache.dfy`, `MemoryRuns.dfy`: the in-memory cache. A
  class runs the list loops; they are proved against functions, and those refine the machine.
- `RankedSets.dfy`, `RedisPools.dfy`, `RedisKeys.dfy`, `RedisChunks.dfy`, `RedisCache.dfy`,
  `RedisRuns.dfy`: the Redis cache, from sorted sets and key names up to the scripts and the
  chunked calls, refining the same machine. `CacheComparison.dfy`, `Deadlines.dfy` and
  `RemovalCounts.dfy` compare the two caches.
- `Storage.dfy`, `MemoryStorage.dfy`: documents under joined keys, queries, and the storage class.
- `RecoveryKeys.dfy`, `System.dfy`: storage, all pools and the recovery keys as one state, and every
  action on it. `RedisSystem.dfy`: the Redis cache in that place, and `BracedQueues.dfy`: the queue
  names it rejects.
- `NoLoss.dfy`, `SystemShape.dfy`, `Departures.dfy`, `Deliveries.dfy`, `ScoreRuns.dfy`,
  `RecoveryRuns.dfy`, `RecoveryProgress.dfy`, `Evictions.dfy`, `EvictionTies.dfy`: theorems about
  all runs of the system. `RequestRules.dfy`: what each request does to scores, locks, pools and
  documents, told from the request alone.
- `SmallSteps.dfy`, `LostMessages.dfy`, `RefilledBatch.dfy`, `Counterexamples.dfy`: concrete runs in
  which a condition fails.
- `Queue.dfy`, `Housekeeper.dfy`, `Service.dfy`, `Server.dfy`: the methods of the queue, the
  housekeeping tasks and the service, each proved to be an action of `System.dfy`, and a server
  that serves any schedule of requests on the objects.
- `Configuration.dfy`: the configuration service with its local cache.

Scores are reals. Clock readings are parameters, in nanoseconds in methods. A missing list, a nil
list and an empty list are one thing. Payload and the other carried fields are one `content`.

Where the code does not do what one would expect, the model follows the code and the exact
condition is proved:

- Storage keys join queue and id with a colon, so two messages can share a key; a live message can
  then be in no pool (`NoLossIff`, `CollidingKeysLoseAMessage`, `AddedUnderOwnNameIff`).
- An Add with a nameless message keeps what it stored before and caches nothing
  (`FailedAddLosesNothingIff`, `FailedAddLosesAMessage`).
- In memory, a pull with a minimum score looks only at the first n entries (`PullAnswersCompared`,
  `ShortPullInMemory`).
- Among equal scores the in-memory cache pulls the newest message first and Redis goes by name
  (`NewestFirst`, `NamesInOrder`).
- The counts a removal reports can exceed what is gone (`DeletedCountIff`, `RedisRemovalCount`).
- In memory, a deadline adds milliseconds to seconds (`MemoryWaitsSeconds`, `DefaultWait`).
- In memory, unlocking walks all queues (`UnlockSeen`, `UnlockReachesOtherQueue`), and timeout and
  unlock move at most one entry of a queue per call (`OneDueMoves`).
- In Redis, an entry with a negative stored time is never freed; a pull can store one
  (`FreedIff`, `PulledInRedis`, `NegativeDeadlineNeverFreed`).
- The Redis cache rejects queue names with a brace and storage does not, so an Add can leave a
  message in no pool, and a recovery batch that holds one does not advance (`RedisAddIff`,
  `AddStrandsBraced`, `RedisScanIff`, `RedisStalls`).
- A recovery batch that runs again after some of its documents have expired can bring in more
  (`RepeatedBatchIff`, `RepeatedBatchAddsOne`).
- An explicit Ack or Nack score is not clamped, and a negative lock time stores the undefined score
  as an active one (`AckInRangeIff`, `NegativeLockLeavesRange`).
- A timeless message is documented to go only when it is removed, but storing it again overwrites
  its expiry and the TTL task looks at nothing else (`TimelessKeptIff`, `TimelessIsRemovedByTtl`).
- Max-elements eviction counts expired documents but cannot find them (`LimitIsMetIff`,
  `LimitIsMissed`). The documentation says ties are broken by age; in memory they are not
  (`VictimsDeterminedIff`, `YoungerCanGoFirst`).
- A storage flush leaves the local configuration cache in place (`ReadsLastEditIff`).

## Model

| member | source | states |
|---|---|---|
| `PoolRuns.ExclusiveDelivery` | internal/queue/cache/memory_cache.go:119-325 | In any interleaving of cache operations on a queue, between two pulls that return the same id that id was made available, timed out, locked and later unlocked, or dropped and later inserted again |
| `PoolRuns.Origin` | internal/queue/cache/memory_cache.go:170-296 | An id that is processing or locked was put there by one earlier pull or lock, with that deadline or lock time and score, and has not moved since |
| `PoolRuns.TimeoutNeverEarly` | internal/queue/cache/memory_cache.go:297-325 | A timeout frees an id only if the deadline of the pull that took it has passed; the id was processing under that deadline all the time in between, and becomes active with the minimum score |
| `PoolRuns.UnlockRestoresScore` | internal/queue/cache/memory_cache.go:186-240 | Every unlock opens a lock of the same kind that is due and that nothing changed in between; the message becomes active with the score given at lock time, or the fallback if that was undefined |
| `PoolRuns.LockHolds` | internal/queue/cache/memory_cache.go:170-249 | A lock ends only by an unlock of that id, a removal or a flush |
| `PoolRuns.DueShrinks` | internal/queue/cache/memory_cache.go:205-325 | A timeout or unlock removes exactly the ids it reports from the due set |
| `Pools.StepKeepsIds` | internal/queue/cache/memory_cache.go:58-355 | Operations other than Insert, Remove and Flush keep the id set of a queue |
| `EntryLists.InsertInto` | internal/queue/cache/memory_cache.go:364-391 | After removing the id the walk puts the entry behind all lower scores and in front of the first one that is not lower |
| `EntryLists.RemoveFrom` | internal/queue/cache/memory_cache.go:392-411 | The removal walk computes the list without the id and tells whether it was there |
| `EntryLists.RemoveEach` | internal/queue/cache/memory_cache.go:95-118 | Removing several ids, with the exact count of removed entries |
| `EntryLists.InsertEntryTidy` | internal/queue/cache/memory_cache.go:364-391 | Insertion keeps the list sorted and free of repeated ids, and adds exactly that entry |
| `EntryLists.RemoveIdTidy` | internal/queue/cache/memory_cache.go:392-411 | Removal keeps the list sorted and free of repeated ids, and takes out exactly that id |
| `MemoryPools.InsertRefines` | internal/queue/cache/memory_cache.go:327-355 | Insert keeps the four lists tidy and disjoint and is an abstract step |
| `MemoryPools.PullLeaves` | internal/queue/cache/memory_cache.go:262-292 | Examining the front of the active list and re-inserting the filtered-out entries leaves exactly the entries that were not taken |
| `MemoryPools.PullTakesFront` | internal/queue/cache/memory_cache.go:262-292 | A pull takes exactly the in-range ones of the n active ids of lowest score, or of all if there are fewer |
| `MemoryPools.PullRefines` | internal/queue/cache/memory_cache.go:250-296 | Pull is an abstract step: ascending scores, and no in-range entry left active scores lower than a pulled one |
| `MemoryPools.MakeAvailableRefines` | internal/queue/cache/memory_cache.go:119-138 | MakeAvailable is an abstract step that moves only a processing id |
| `MemoryPools.LockRefines` | internal/queue/cache/memory_cache.go:170-204 | LockMessage is an abstract step that locks only a processing id |
| `MemoryPools.TimeoutRefines` | internal/queue/cache/memory_cache.go:297-326 | TimeoutMessages, with its in-place score change, is an abstract step |
| `MemoryPools.UnlockRefines` | internal/queue/cache/memory_cache.go:205-249 | UnlockMessages is an abstract step |
| `MemoryPools.RemoveRefines` | internal/queue/cache/memory_cache.go:58-94 | Remove takes the ids out of all four lists and is an abstract step |
| `MemoryPools.Refines` | internal/queue/cache/memory_cache.go:58-355 | Every in-memory operation keeps the list invariant and refines the abstract machine with the same reply |
| `MemoryRuns.ReachableIsTidy` | internal/queue/cache/memory_cache.go:58-410 | In every reachable state each list is sorted with no repeated id and the four lists of a queue are pairwise disjoint |
| `MemoryRuns.RunsRefine` | internal/queue/cache/memory_cache.go:58-355 | Every run of the in-memory lists is a run of the abstract machine |
| `MemoryRuns.ExclusiveInMemory` | internal/queue/cache/memory_cache.go:119-325 | Exclusive delivery for the in-memory cache |
| `MemoryRuns.LockScoreInMemory` | internal/queue/cache/memory_cache.go:186-240 | Locks keep their score in the in-memory cache |
| `MemoryRuns.TimeoutInMemory` | internal/queue/cache/memory_cache.go:250-325 | Timeouts are never early in the in-memory cache |
| `MemoryRuns.OneDueMoves` | internal/queue/cache/memory_cache.go:205-325 | A timeout or unlock call moves exactly one due entry of a queue when there is one |
| `MemoryRuns.MemoryDrains` | internal/queue/cache/memory_cache.go:205-325 | n calls at one time move n due entries, or all of them |
| `MemoryRuns.MemoryDrainsOver` | internal/queue/cache/memory_cache.go:205-325 | With a clock that moves on, n calls leave nothing that was due at the first reading, or each moved one entry |
| `MemoryCaches.MemoryCache.constructor` | internal/queue/cache/memory_cache.go:37-46 | A new cache has empty pools and no recovery keys |
| `MemoryCaches.MemoryCache.Flush` | internal/queue/cache/memory_cache.go:48-56 | Flush empties every pool and the recovery keys |
| `MemoryCaches.MemoryCache.Remove` | internal/queue/cache/memory_cache.go:58-93 | Removes the ids from the four lists of one queue, leaves other queues alone, and counts what left |
| `MemoryCaches.MemoryCache.MakeAvailable` | internal/queue/cache/memory_cache.go:119-137 | Moves a processing message to active with the given score; fails only without a queue name; replies whether it was processing |
| `MemoryCaches.MemoryCache.LockMessage` | internal/queue/cache/memory_cache.go:170-203 | Moves a processing message to a lock list, or replies false |
| `MemoryCaches.MemoryCache.UnlockMessages` | internal/queue/cache/memory_cache.go:205-248 | Walks every queue, whatever queue it is asked for, and unlocks at most one due entry in each; an unlocked message gets the score of its lock, or without one the present time after an Ack and 0 after a Nack |
| `MemoryCaches.MemoryCache.UnlockQueue` | internal/queue/cache/memory_cache.go:213-245 | The walk over one lock list unlocks the first due entry, with the score of the lock, or the present time (Ack) or 0 (Nack) without one, and stops |
| `MemoryCaches.MemoryCache.PullMessages` | internal/queue/cache/memory_cache.go:250-295 | The loop over the front of the active list computes the pull specification |
| `MemoryCaches.TakeFromFront` | internal/queue/cache/memory_cache.go:262-285 | The taking loop splits the examined entries into taken and filtered out |
| `MemoryCaches.MemoryCache.TimeoutMessages` | internal/queue/cache/memory_cache.go:297-325 | Moves the first processing entry to active if it is due |
| `MemoryCaches.MemoryCache.Insert` | internal/queue/cache/memory_cache.go:327-355 | Rejects a message of another queue without changing anything, else adds the messages that are in no pool |
| `MemoryCaches.MemoryCache.IsProcessing` | internal/queue/cache/memory_cache.go:412-417 | Answers whether the id is in the processing list |
| `MemoryCaches.SizeOfTable` | internal/queue/cache/memory_cache.go:58-94 | The four list lengths add up to the number of ids in the queue |
| `RankedSets.RankedOrder` | internal/queue/cache/redis_cache_scripts.go:203-218 | Sorted-set rank order: ascending score, ties by member |
| `RankedSets.FastPathIff` | internal/queue/cache/redis_cache_scripts.go:203-212 | ZRANGE 0 n-1 equals ZRANGEBYSCORE over the full range with limit n if and only if n >= 1 or the set is empty |
| `RankedSets.RevRangeFacts` | internal/queue/cache/redis_cache_scripts.go:137-176 | ZREVRANGEBYSCORE with a limit answers min(n, in range) distinct in-range members, highest score first, and leaves no higher one out |
| `RedisPools.AddRefines` | internal/queue/cache/redis_cache_scripts.go:74-112 | The add script is an abstract step and keeps the set invariant |
| `RedisPools.MoveRefines` | internal/queue/cache/redis_cache_scripts.go:27-49 | The move script is an abstract step and replies 1 exactly when the id was processing, although it returns a ZADD count |
| `RedisPools.LockRefines` | internal/queue/cache/redis_cache_scripts.go:51-72 | The lock script is an abstract step and replies 1 exactly when the id was processing |
| `RedisPools.TimeoutRefines` | internal/queue/cache/redis_cache_scripts.go:137-163 | The bulk move script is an abstract step |
| `RedisPools.UnlockRefines` | internal/queue/cache/redis_cache_scripts.go:165-201 | The unlock script is an abstract step; no stale score of an earlier lock survives |
| `RedisPools.RemoveRefines` | internal/queue/cache/redis_cache_scripts.go:8-25 | The remove script is an abstract step |
| `RedisPools.PullElementsOrdered` | internal/queue/cache/redis_cache_scripts.go:203-218 | For every n both branches of the pull script answer in-range members of lowest rank in order; for n >= 1 both answer n of them, or all |
| `RedisPools.PullRefines` | internal/queue/cache/redis_cache_scripts.go:203-218 | The pull script is an abstract step |
| `RedisPools.Refines` | internal/queue/cache/redis_cache_scripts.go:8-218 | Every script keeps the main sets disjoint and each lock-score set inside its lock set, and refines the abstract machine |
| `RedisRuns.ReachableIsDisjoint` | internal/queue/cache/redis_cache_scripts.go:8-218 | The set invariant holds in every reachable state |
| `RedisRuns.RunsRefine` | internal/queue/cache/redis_cache_scripts.go:8-218 | Every run of the scripts is a run of the abstract machine |
| `RedisRuns.ExclusiveInRedis` | internal/queue/cache/redis_cache_scripts.go:27-218 | Exclusive delivery for the Redis cache |
| `RedisRuns.LockScoreInRedis` | internal/queue/cache/redis_cache_scripts.go:51-201 | Locks keep their score in the Redis cache |
| `RedisRuns.TimeoutInRedis` | internal/queue/cache/redis_cache_scripts.go:137-218 | Timeouts are never early in the Redis cache |
| `RedisRuns.BatchMoves` | internal/queue/cache/redis_cache_scripts.go:137-201 | One timeout or unlock call moves min(1000, due) ids, where due means a stored time in 0..now, and of those the latest |
| `RedisRuns.RedisDrains` | internal/queue/cache/redis_cache_scripts.go:137-201 | n calls at one time move n batches of due ids, or all of them |
| `RedisRuns.RedisDrainsOver` | internal/queue/cache/redis_cache_scripts.go:137-201 | With a clock that moves on, n calls leave nothing that was visible at the first reading, or n full batches moved |
| `RedisRuns.FreedIff` | internal/queue/cache/redis_cache_scripts.go:137-201 | Repeated calls free an id if and only if its stored time lies in 0..now: a negative stored time is never freed |
| `Deadlines.MemoryWaitsSeconds` | internal/queue/cache/memory_cache.go:262-310 | The in-memory cache and the request disagree on a timeout exactly between the requested moment and the one at which as many seconds have passed as milliseconds were asked for; a positive wait is never cut short |
| `Deadlines.DefaultWait` | internal/queue/cache/memory_cache.go:262-310 | A pull without a deadline asks for 300 seconds; in memory the message is still held 83 hours later |
| `Deadlines.PulledInMemory` | internal/queue/cache/memory_cache.go:250-325 | An id taken by an in-memory pull is due exactly as the deadline theorem says |
| `Deadlines.PulledInRedis` | internal/queue/cache/redis_cache.go:674-773 | An id taken by a Redis pull is freed by timeout calls at a later reading if and only if the requested milliseconds have passed and the deadline does not lie before the origin of the clock, because the range of the timeout script starts at 0 |
| `Deadlines.NegativeDeadlineNeverFreed` | internal/queue/cache/redis_cache_scripts.go:137-163 | A pull at 1 ms that asks for -2 ms: overdue at once by the request, never freed by the script |
| `CacheComparison.PullAnswersCompared` | internal/queue/cache/memory_cache.go:262-292 | On distinct scores the in-memory answer is a prefix of the script answer, and equal to it if and only if nothing is in range, nothing active is below the minimum score, or n reaches past the last in-range entry |
| `Counterexamples.ShortPullInMemory` | internal/queue/cache/memory_cache.go:262-292 | Scores 1 and 2, one message asked for with a minimum of 2: the in-memory cache answers nothing, the Redis cache the second message |
| `CacheComparison.UnfilteredPullsAgree` | internal/queue/cache/memory_cache.go:262-292 | Without a minimum score both caches answer the same ids |
| `CacheComparison.NewestFirst` | internal/queue/cache/memory_cache.go:364-391 | In memory a new message stands in front of all active messages of the same score |
| `CacheComparison.NamesInOrder` | internal/queue/cache/redis_cache_scripts.go:203-218 | In Redis messages of the same score are answered in the order of their names, compared character by character |
| `RedisKeys.KeysInjective` | internal/queue/cache/redis_cache.go:907-926 | Pool keys are injective in queue and pool kind, for every queue name |
| `RedisKeys.ParseRecoversQueue` | internal/queue/cache/redis_cache.go:533-551 | Parsing a key with the suffix of its kind gives the queue back |
| `RedisKeys.OneSlotIff` | internal/queue/cache/redis_cache.go:907-926 | With a prefix free of '{', the six keys of a queue share a hash slot if and only if the name is not empty and does not start with '}' |
| `RedisChunks.RemoveSplits` | internal/queue/cache/redis_cache.go:324-355 | Removing in chunks leaves the state of one removal |
| `RedisChunks.ChunkingIsInvisibleIff` | internal/queue/cache/redis_cache.go:785-823 | Inserting by 2000 gives the state and reply of one script call if and only if no new id appears in two chunks |
| `RedisCaches.WriteOne` | internal/queue/cache/redis_cache.go:907-926 | Writing one sorted set changes that set of that queue and nothing else |
| `RedisCaches.RedisCache.MoveScript` | internal/queue/cache/redis_cache_scripts.go:27-49 | Command by command, the move script computes its specification |
| `RedisCaches.RedisCache.LockScript` | internal/queue/cache/redis_cache_scripts.go:51-72 | Command by command, the lock script computes its specification |
| `RedisCaches.RedisCache.MoveAll` | internal/queue/cache/redis_cache_scripts.go:137-163 | The loop of the bulk move script computes its specification |
| `RedisCaches.RedisCache.UnlockScript` | internal/queue/cache/redis_cache_scripts.go:165-201 | The loops of the unlock script compute its specification |
| `RedisCaches.RedisCache.AddScript` | internal/queue/cache/redis_cache_scripts.go:74-112 | The loops of the add script compute its specification |
| `RedisCaches.RedisCache.ExistsInPools` | internal/queue/cache/redis_cache_scripts.go:74-112 | The presence test looks at the four main sets |
| `RedisCaches.RedisCache.RemoveScript` | internal/queue/cache/redis_cache_scripts.go:8-25 | The loop over six sets removes the ids and counts the requested ids each set held |
| `RemovalCounts.RedisRemovalCount` | internal/queue/cache/redis_cache_scripts.go:8-25 | The count is the number of cached ids asked for, plus those locked with a score once more; so it is the number of ids gone, as in memory, if and only if none of them was locked with a score |
| `RedisCaches.RedisCache.MakeAvailable` | internal/queue/cache/redis_cache.go:583-611 | Fails on a missing or braced queue name without change; else replies whether the id was processing and moves it |
| `RedisCaches.RedisCache.LockMessage` | internal/queue/cache/redis_cache.go:612-647 | Fails on a missing or braced queue name without change; else locks a processing id |
| `RedisCaches.RedisCache.UnlockMessages` | internal/queue/cache/redis_cache.go:648-673 | Moves due locks of the kind; each message gets the score of its lock, or without one the present time after an Ack and 0 after a Nack |
| `RedisCaches.RedisCache.PullMessages` | internal/queue/cache/redis_cache.go:674-717 | Runs the pull script with the deadline in milliseconds |
| `RedisCaches.RedisCache.TimeoutMessages` | internal/queue/cache/redis_cache.go:752-773 | Runs the bulk move script from processing to active |
| `RedisCaches.RedisCache.Remove` | internal/queue/cache/redis_cache.go:312-358 | Chunked removal has the effect and the total of one removal |
| `RedisCaches.RedisCache.Insert` | internal/queue/cache/redis_cache.go:774-825 | Rejects a message of another queue, else inserts chunk by chunk |
| `StorageModel.KeysCollideIff` | internal/queue/storage/memory_storage.go:137-140 | Joined storage keys of two messages are equal if and only if they are the same message or one queue extends the other by a part that the other id starts with |
| `StorageModel.ColonFreeKeysInjective` | internal/queue/storage/memory_storage.go:137-140 | Ids without a colon never collide |
| `StorageModel.AddedUnderOwnNameIff` | internal/queue/storage/memory_storage.go:85-140 | After a batch every message is stored under its own queue and id if and only if neither a stored document nor another message of the batch shadows it, told by the names alone |
| `StorageModel.ShadowsIff` | internal/queue/storage/memory_storage.go:137-140 | Two different messages share a key if and only if one queue goes on with a colon and a part that the other id starts with |
| `StorageModel.PutKeepsIdentity` | internal/queue/storage/memory_storage.go:85-128 | Storing again keeps queue, id, number, score and timelessness of a document |
| `StorageModel.PutHolds` | internal/queue/storage/memory_storage.go:85-128 | After an insert exactly the old keys and the new keys are stored |
| `StorageModel.PutKeepsInv` | internal/queue/storage/memory_storage.go:85-128 | Insertion keeps document numbers unique and below the counter |
| `StorageModel.SortFacts` | internal/queue/storage/memory_storage.go:253-288 | The sort orders the documents and keeps their multiset |
| `StorageModel.CutAnswers` | internal/queue/storage/memory_storage.go:253-291 | Sorting and cutting the selection answers the query: no document left out comes before one answered |
| `StorageModel.AnswerSize` | internal/queue/storage/memory_storage.go:231-291 | A limited query answers min(limit, matching) documents |
| `MemoryStorages.MemoryStorage.constructor` | internal/queue/storage/memory_storage.go:29-39 | A new storage is empty, has no configurations and counts from 0 |
| `MemoryStorages.MemoryStorage.Flush` | internal/queue/storage/memory_storage.go:72-83 | Flush drops documents and configurations, answers how many of both there were, and keeps the counter |
| `MemoryStorages.MemoryStorage.EditQueueConfiguration` | internal/queue/storage/memory_storage.go:54-66 | Ignores 0 and stores a negative limit as 0 |
| `MemoryStorages.MemoryStorage.Insert` | internal/queue/storage/memory_storage.go:85-127 | Stores one by one and counts created and updated documents; a nameless message stops it, and what came before stays stored |
| `MemoryStorages.MemoryStorage.Find` | internal/queue/storage/memory_storage.go:231-291 | Collects, sorts and cuts: the answer is sorted, distinct, and complete up to the limit |
| `MemoryStorages.MemoryStorage.Count` | internal/queue/storage/memory_storage.go:141-159 | Counts matching documents, expired ones included |
| `MemoryStorages.MemoryStorage.Remove` | internal/queue/storage/memory_storage.go:297-317 | Removes exactly the named documents of the queue, and counts the listed ids that name one, repetitions included |
| `RemovalCounts.DeletedCountIff` | internal/queue/storage/memory_storage.go:297-317 | The reported count is the number of documents that are gone if and only if no stored document is listed twice; else it is higher |
| `MemoryStorages.MemoryStorage.Rescore` | internal/queue/storage/memory_storage.go:319-369 | Ack and Nack record score and lock time of a known document |
| `MemoryStorages.RemoveInChunks` | internal/queue/storage/mongo_storage.go:410-450 | Deleting by 100 leaves the documents and the total of one deletion |
| `Queues.GroupByQueue` | internal/queue/queue.go:121-135 | The grouping loop gives each queue its messages in order |
| `Queues.NotFoundIds` | internal/queue/queue.go:446-461 | Exactly the ids without a message, in order |
| `Queues.LimitNeverCuts` | internal/queue/queue.go:381-401 | A lookup limited to the number of ids never cuts off a matching document |
| `Queues.LookupFinds` | internal/queue/queue.go:381-401 | After a lookup exactly the ids without a live document of the queue are missing |
| `Queues.JoinReads` | internal/queue/queue.go:340-366 | The first read and the retry join into one answer in ascending score without duplicates; the ids missing from both are those storage does not know |
| `Queues.Queue.AddMessagesToCache` | internal/queue/queue.go:117-158 | Every queue gets exactly the messages of the batch it did not hold, each active with the score of the last message of its name; the count is the number of messages that were new to their queue |
| `Queues.Queue.LookUp` | internal/queue/queue.go:335-366 | Two reads answer the documents of the ids, in ascending score, and the ids to purge |
| `Queues.Queue.Pull` | internal/queue/queue.go:315-379 | Takes the in-range ones of the n active messages of lowest score. The ids taken split exactly: those answered are processing until the deadline, the others are in no pool, and the rest of the queue is untouched; the answer is in ascending stored score and holds each known document once |
| `Queues.Queue.Ack` | internal/queue/queue.go:160-289 | Ack and Nack record the score and then lock the message or make it available; the reply says whether it was processing |
| `Queues.Queue.Remove` | internal/queue/queue.go:403-430 | Removal reaches storage and all pools of the queue; the counts are the ids that left the pools and the listed ids that named a document |
| `Queues.Queue.TimeoutMessages` | internal/queue/queue.go:291-313 | A timeout sweeps one queue and no other, and frees one message if and only if a deadline there has passed |
| `Queues.Queue.UnlockMessages` | internal/queue/queue_housekeeper.go:103-130 | An unlock sweeps due entries only, with the scores of their locks or the present time (Ack) or 0 (Nack); the answer names exactly the unlocked messages, and a queue changes if and only if a lock of the kind is due there |
| `Queues.UnlockSeen` | internal/queue/cache/memory_cache.go:205-248 | Unlocking walks every queue; a queue stays unchanged if and only if no lock of the kind is due in it |
| `Counterexamples.UnlockReachesOtherQueue` | internal/queue/cache/memory_cache.go:205-248 | An unlock call for queue a opens a due lock of queue b |
| `Queues.Queue.WipeCache` | internal/queue/cache/memory_cache.go:48-56 | Losing the cache loses the pools and the recovery keys and nothing else |
| `Queues.Queue.Flush` | internal/queue/queue.go:432-443 | A flush empties storage, cache and recovery keys |
| `Housekeeper.TryToStartRecovery` | internal/queue/queue_housekeeper.go:237-282 | Records the last live document as the target, or finishes if there is none |
| `Housekeeper.RecoveryMessagesPool` | internal/queue/queue_housekeeper.go:144-235 | One recovery call is one recovery step: cached messages stay where they are, and only stored documents that are live at the scan and after the breakpoint come back, active with their stored score brought into 0..2^53 |
| `Housekeeper.ScanBatch` | internal/queue/queue_housekeeper.go:180-229 | One batch enters the cache, each new document active with its stored score brought into range, then the breakpoint moves or the scan finishes |
| `Housekeeper.ClampScores` | internal/queue/queue_housekeeper.go:204-213 | A recovered score in 0..2^53 stays, a lower one becomes 0 and a higher one 2^53 |
| `RequestRules.RecalledScore` | internal/queue/queue_housekeeper.go:200-229 | A document of a recovery batch that was not cached is active afterwards, with its stored score brought into range |
| `RequestRules.RecoverRule` | internal/queue/queue_housekeeper.go:144-235 | In any recovery call of a run cached messages stay where they are and only live stored documents after the breakpoint come back, with their stored score brought into range |
| `RequestRules.ScanWindow` | internal/queue/queue_housekeeper.go:180-200 | A scan reads exactly the documents that have not expired, after the breakpoint and up to the target |
| `Housekeeper.RemoveTTLMessages` | internal/queue/queue_housekeeper.go:284-345 | The per-queue grouping removes exactly the documents of the query from storage and pools; nothing while recovery runs |
| `Housekeeper.RemoveExceedingMessages` | internal/queue/queue_housekeeper.go:373-437 | Removes the excess documents of one queue; nothing while recovery runs, without a queue name or without a positive limit |
| `RecoveryRuns.FullBatchAdvances` | internal/queue/queue_housekeeper.go:154-229 | A full batch leaves exactly the unscanned rest of the window |
| `RecoveryRuns.FinishesInTime` | internal/queue/queue_housekeeper.go:144-281 | Recovery calls of a clock that moves on finish, or leave at most 4000 documents fewer each; L / 4000 + 1 calls finish L live documents |
| `RecoveryRuns.RecoveryRestoresCache` | internal/queue/queue_housekeeper.go:144-281 | After that many calls every document that is still live is in a pool |
| `RecoveryRuns.FinishesExactly` | internal/queue/queue_housekeeper.go:144-281 | While nothing expires recovery is finished exactly from call L / 4000 + 1 on, also when L is a multiple of 4000 |
| `RecoveryRuns.InBatchIff` | internal/queue/queue_housekeeper.go:176-195 | A batch holds exactly the documents with at most 4000 documents of the window up to them |
| `RecoveryRuns.RepeatedBatchIff` | internal/queue/queue_housekeeper.go:180-229 | Running a batch again later, after its breakpoint write was lost, leaves the pools unchanged if and only if the documents close enough behind it to replace expired ones were cached from the start |
| `RecoveryRuns.RepeatedBatchChangesNothing` | internal/queue/queue_housekeeper.go:180-229 | It leaves them unchanged when the batch was not full or nothing of it has expired |
| `RefilledBatch.RepeatedBatchAddsOne` | internal/queue/queue_housekeeper.go:180-229 | After a run that adds 4001 messages, loses the cache and recovers, the batch run again once its first document has expired brings in document 4001 |
| `RecoveryProgress.ProgressInRun` | internal/queue/queue_housekeeper.go:144-281 | In any run without a loss of the cache or a flush, every recovery call finishes the scan or takes 4000 documents off what is left, and no request, sweep or eviction in between adds to it |
| `RecoveryProgress.FinishesInRun` | internal/queue/queue_housekeeper.go:144-281 | So L / 4000 + 1 recovery calls finish the scan of L stored documents, whatever comes in between |
| `RecoveryProgress.RestoredInRun` | internal/queue/queue_housekeeper.go:144-281 | And then a run of safe Adds has every live document in a pool |
| `Evictions.TtlEviction` | internal/queue/queue_housekeeper.go:284-345 | One TTL call removes min(10000, due) documents, the soonest to expire, from storage and every pool; nothing that expires later goes, and all other pool entries stay |
| `Evictions.TtlDrains` | internal/queue/queue_housekeeper.go:284-345 | With dates that move on, i calls leave nothing that was due at the first date, or i full batches are gone |
| `Evictions.TtlDrainsExactly` | internal/queue/queue_housekeeper.go:284-345 | At one date i calls remove exactly min(due, 10000 i) documents |
| `Evictions.ExceedingEviction` | internal/queue/queue_housekeeper.go:373-437 | Max-elements eviction removes min(excess, live) documents of the queue, the soonest to expire; other queues and all other pool entries stay |
| `Evictions.LimitIsMetIff` | internal/queue/queue_housekeeper.go:373-437 | The queue ends at min(total, limit) documents if and only if it was within the limit or held no more expired documents than the limit |
| `Counterexamples.LimitIsMissed` | internal/queue/queue_housekeeper.go:373-437 | Two expired documents and a limit of one: nothing is evicted |
| `EvictionTies.VictimsDeterminedIff` | internal/queue/storage/memory_storage.go:253-288 | The victims of an eviction are determined if and only if no group of equal expiry reaches across the cut |
| `EvictionTies.YoungerCanGoFirst` | internal/queue/queue_housekeeper.go:373-437 | A run from empty that adds two messages of equal expiry and evicts the younger |
| `NoLoss.NoLossIff` | internal/queue/queue_housekeeper.go:144-281 | A run of any requests, failing ones included, and cache wipes keeps every live message that is stored in a pool or ahead of the recovery scan if and only if before each Add the batch revives no unreachable document and, when it fails, strands no new one |
| `NoLoss.AddLosesNothingIff` | internal/service/deckard_service.go:315-385 | One Add loses no live message if and only if it renews no expired document of another name that is in no pool and not ahead of the scan |
| `NoLoss.NoLiveMessageLost` | internal/queue/queue_housekeeper.go:144-281 | With named messages and ids free of colons no run ever loses a live message |
| `LostMessages.CollidingKeysLoseAMessage` | internal/queue/storage/memory_storage.go:85-140 | A run from empty that loses a message by a key collision: add, recover, pull after expiry, add under the same key |
| `LostMessages.FailedAddLosesAMessage` | internal/service/deckard_service.go:366-374 | A run from empty that loses the first message of a batch whose second has no id |
| `NoLoss.FailedAddLosesNothingIff` | internal/service/deckard_service.go:366-374 | An Add that fails half way loses no live message if and only if it revives no unreachable document and stores no new live one that the cache lacks once the scan has its target or is over |
| `NoLoss.PullKeeps` | internal/queue/queue.go:315-379 | Purging during a pull never drops a live message |
| `NoLoss.RecoverKeeps` | internal/queue/queue_housekeeper.go:144-281 | A recovery step never skips a live document |
| `NoLoss.EvictKeeps` | internal/queue/queue_housekeeper.go:284-437 | Evictions drop the document together with its cache entry |
| `Departures.LeavesOnlyBy` | internal/queue/storage/memory_storage.go:297-317 | One action takes a document out of storage only if it names it, limits its queue while it is live, flushes, or is TTL after the stored expiry; what is named goes; a live one that TTL takes is timeless |
| `Departures.Departure` | internal/queue/queue_housekeeper.go:284-437 | In any run a document that is gone was taken by one such action, at which it was still stored |
| `Departures.TimelessKeptIff` | internal/queue/queue_housekeeper.go:284-345 | TTL takes no timeless document, whatever order it works in, if and only if recovery is running or no timeless document in reach of the batch has a stored expiry that has passed |
| `Counterexamples.TimelessIsRemovedByTtl` | internal/queue/storage/memory_storage.go:103-112 | A run from empty: a timeless message added again without the flag and with a short TTL is removed by the TTL task |
| `Deliveries.ExclusiveService` | internal/queue/queue.go:160-379 | In a run of the whole server, between two pulls that hand out the same message an action made it active again: a settlement without a lock of the processing message, a timeout or unlock that was due (the unlock after an ack or nack locked it since), or an insertion into a cache that did not hold it, after an action since then took it out |
| `Deliveries.OriginInRun` | internal/queue/queue.go:160-379 | A message that is processing or locked was put there by one pull or settlement and has not moved since |
| `Deliveries.ServiceTimeoutNeverEarly` | internal/queue/queue_housekeeper.go:28-75 | On the server a message is timed out only after the deadline of the pull that handed it out |
| `Deliveries.ServiceUnlockRestoresScore` | internal/queue/queue_housekeeper.go:77-130 | On the server an unlocked message gets the score of the ack or nack that locked it, after its lock time |
| `SystemShape.RunKeepsShape` | internal/queue/queue_housekeeper.go:144-281 | Every run keeps storage sound and the recovery keys consistent, whatever it contains |
| `RedisSystem.RedisOperates` | internal/queue/cache/redis_cache_scripts.go:8-218 | A call of the Redis cache that it does not reject is that operation of the system, with the same reply; it rejects queue names with a brace |
| `RedisSystem.ChunksFill` | internal/queue/cache/redis_cache.go:785-823 | Insertion in chunks fills the pool as the system asks, also when an id appears in two chunks |
| `RedisSystem.AddMessagesToCache` | internal/queue/queue.go:121-158 | A batch over the Redis cache, one call per queue up to the first error: succeeds if and only if no queue name has a brace, then inserts every part and answers the total of the replies; on an error the queues done so far have their part and no other queue changes |
| `RedisSystem.RedisFills` | internal/queue/cache/redis_cache.go:774-825 | The queues of a batch that are inserted in chunks are filled as the system asks, and the pools of the other queues stay |
| `BracedQueues.BatchInserts` | internal/queue/queue.go:121-158 | What the insertion of a batch leaves in the database is what the theorems about braced names assume of the system |
| `BracedQueues.OperationKeepsNoBraced` | internal/queue/cache/redis_cache.go:896-904 | No cache call creates a pool under a name with a brace |
| `BracedQueues.RedisInsertIff` | internal/queue/cache/redis_cache.go:774-825 | Over Redis an insertion of a batch is the one of the system, and every message of the batch is cached after it, if and only if no queue name of the batch has a brace |
| `BracedQueues.RedisAddIff` | internal/queue/queue.go:93-158 | Over Redis an Add is the Add of the system, and caches all it stored, if and only if no queue name of the batch has a brace |
| `BracedQueues.BracedReachedIff` | internal/queue/cache/redis_cache.go:774-777 | Over Redis a message of a queue with a brace is within reach of a pull or a scan if and only if a scan has yet to come to it |
| `BracedQueues.RedisScanIff` | internal/queue/queue_housekeeper.go:200-235 | Over Redis a recovery batch is the one of the system if and only if it holds no queue name with a brace; with one, and only then, the breakpoint and the recovery state stay as they were |
| `BracedQueues.RedisRecoverIff` | internal/queue/queue_housekeeper.go:144-282 | Over Redis a recovery call is the one of the system if and only if it reads no batch or its batch holds no queue name with a brace |
| `BracedQueues.RedisStalls` | internal/queue/queue_housekeeper.go:144-282 | While a document of a queue with a brace within the next 4000 documents of the scan is live, no number of recovery calls at later and later readings moves the breakpoint or ends the recovery |
| `BracedQueues.AddStrandsBraced` | internal/queue/queue.go:93-158 | With recovery over and storage empty, an Add over Redis of message x to queue a{ leaves it stored, live, in no pool and ahead of no scan |
| `ScoreRuns.AckInRangeIff` | internal/service/deckard_service.go:566-621 | An Ack or Nack of a processing message keeps pool scores in range if and only if its explicit score is in range (undefined allowed when locking) or, without one, the lock time is not negative |
| `Counterexamples.NegativeLockLeavesRange` | internal/service/deckard_service.go:566-597 | A run from empty: an ack without a score and with a lock time of -1 ms leaves an active score of -1 |
| `ScoreRuns.ActiveScoresStayInRange` | internal/queue/score/score.go:66-80 | In every state of every run of fitting requests all active scores are within the minimum and maximum, also after recovery reads an undefined score |
| `Score.Clamp` | internal/queue/score/score.go:66-80 | The nearest in-range score |
| `Score.PullBoundsKeepMeaning` | internal/queue/score/score.go:20-64 | Clamping a pull bound changes which scores pass only for an out-of-range bound met by a score at that end |
| `Service.BuildMessages` | internal/service/deckard_service.go:315-356 | The Add loop builds the messages; without a requested score a message gets the present time, else the request brought into range |
| `Service.Add` | internal/service/deckard_service.go:315-385 | An Add is one system action and succeeds if and only if every message has a queue and an id. New messages are active with the present time, or the requested score brought into range; storage keeps what it knew of a key but takes the new expiry and content. A failing Add stores the messages before the nameless one and caches none. It answers the created and updated counts |
| `Service.PullAmount` | internal/service/deckard_service.go:398-404 | The amount is the request within 1..1000, 1 below and 1000 above |
| `Service.Pull` | internal/service/deckard_service.go:386-460 | A Pull is one system action and takes, of the n active messages of lowest score with n the amount held to 1..1000, those within the requested bounds or the score filter. It answers the documents found in ascending stored score; each id it took is afterwards processing under the deadline of the request if its document was found and in no pool otherwise, and nothing else changes |
| `Service.ComputeScore` | internal/service/deckard_service.go:566-621 | A requested score is taken as it is; without one and without a lock an Ack gives the present time less the subtraction, brought into range, and a Nack 0; with a lock the score stays open |
| `Service.Settle` | internal/service/deckard_service.go:555-646 | Ack and Nack are one system action: a processing message becomes active, or locked until the lock time has passed, with that score; storage records score and lock time under its key; nothing else changes; the reply tells whether the message was processing |
| `RequestRules.SettleRule` | internal/service/deckard_service.go:555-646 | What an Ack or Nack does to pools and storage, told from the request: score, lock time, place of the message and the recorded document, and what stays |
| `RequestRules.AckGoesBehind` | internal/service/deckard_service.go:566-590 | An Ack without a score and without a lock puts a processing message back at the present time less the subtraction, brought into range |
| `RequestRules.AddRule` | internal/service/deckard_service.go:315-385 | What an Add does to every pool entry and every storage key, told from the request: score, flag and name from the first message of a key, expiry and content from the last, and only the prefix before a nameless message on a failure |
| `Service.SettleAndRemove` | internal/service/deckard_service.go:599-658 | Settling with removal is one system action after which the message is in no pool and not in storage; both counts are 1 or 0 by whether it was there |
| `Service.Remove` | internal/service/deckard_service.go:268-293 | Remove is one system action with both counts; without ids nothing changes |
| `Server.Serve` | internal/service/deckard_service.go:268-676 | Each request, housekeeping task or loss of the cache, run on the storage and cache objects, is its system action; a Pull takes the wanted messages from the front, and a timeout or unlock does not idle while something is due |
| `Server.ServeAll` | internal/service/deckard_service.go:268-676 | Serving any schedule from an empty server is a run that ends in the server state |
| `Server.UnlockedOnServer` | internal/queue/cache/memory_cache.go:205-248 | In any schedule an unlock request makes a message active only after an Ack or Nack request locked it and the requested milliseconds have passed; its score is the one that request named, else the time of the unlock after an Ack and 0 after a Nack |
| `Server.TimedOutOnServer` | internal/queue/cache/memory_cache.go:250-325 | In any schedule a timeout request makes a message active only after a Pull request handed it out and as many seconds have passed as milliseconds were asked for, 300000 without a request; its score is then 0 |
| `Server.ServeWithoutLoss` | internal/queue/queue_housekeeper.go:144-281 | After any schedule on the objects themselves, losses of the cache included, every live stored message is in a pool of its queue or ahead of the recovery scan |
| `Server.ServeWithoutLossIff` | internal/service/deckard_service.go:268-676 | On the objects every live message stays within reach throughout a schedule if and only if each Add is safe when it arrives |
| `Server.ServeInRange` | internal/service/deckard_service.go:555-646 | After any schedule of fitting requests all active scores on the objects are in range |
| `Configuration.ReadsLastEditIff` | internal/queue/queue_configuration_service.go:33-85 | Reads answer the last non-zero edit throughout any sequence of edits, reads, expiries and flushes if and only if every flush finds the queue uncached or cached with 0 |
| `Configuration.CacheAgreesWithStorage` | internal/queue/queue_configuration_service.go:33-85 | With clean flushes the local cache agrees with storage, although an edit equal to the cached value skips storage |
| `Configuration.FlushSwallowsAnEdit` | internal/queue/storage/memory_storage.go:72-83 | A concrete sequence in which a flush makes an edit disappear |
| `Configuration.ConfigurationService.EditQueueConfiguration` | internal/queue/queue_configuration_service.go:33-58 | An edit is recorded as one call of the history the state follows |
| `Configuration.ConfigurationService.GetQueueConfiguration` | internal/queue/queue_configuration_service.go:60-85 | A read answers the cached or stored value, which is the last edit when flushes are clean |

## Left out

- Connection set-up, retries, SCAN, cluster fan-out and BSON building: calls into client libraries.
- gRPC server, TLS, keepalive and generated protocol code: no state of the queue passes through them.
- Auditing, metrics, tracing, logging and shutdown: they do not change pools or storage.
- ListQueues, ListQueueNames and ListQueuePrefixes, and glob patterns: they only read, and the matcher is a library.
- RedisCache.Flush: it deletes keys by a scanned pattern; only the in-memory flush is an action of a run.
- Floating-point rounding, NaN and 64-bit overflow of scores and times.
- Description, payload, metadata, breakpoint, diagnostics and usage fields, carried as `content` or dropped.
- The date arithmetic that turns a TTL or the timeless flag into an expiry date: the date is an input.
- The text form of the recovery keys: a breakpoint is unset, a document number or finished.
- Interleavings of two requests inside one request: storage and cache calls of one request run together; interleavings of single cache operations are covered by the pool theorems.
- Storage and cache errors in the middle of a housekeeping task, other than the nameless message of an Add.
- Mongo queries other than the chunked deletion; storage in runs is the in-memory one.
- Objects that join the Redis cache with storage: `RedisSystem` and `BracedQueues` relate databases and system states for single operations, insertions and recovery, and the queue and service methods are written over the in-memory cache. So an Ack, Nack, Pull or removal over Redis on a queue name with a brace, which fails in the cache, is not an action of a run.
- The loop over all queue configurations in RemoveExceedingMessages: one queue is modelled.
- Queries without a sort order and projections: every query of the modelled code sorts.
- Dates before the origin of the clock: clock readings and the filter date of the TTL task are natural numbers.
- RedisKeys.OneSlotIff: requires a prefix free of '{', as a prefix with a brace would be the hash tag itself.
- CacheComparison.PullAnswersCompared: distinct scores only, because ties are ordered by insertion in memory and by member name in Redis; and n of at least 1, which the service guarantees, because for a smaller n the two caches mean different things.
- MemoryCaches.MemoryCache.PullMessages: for a negative n the source panics while it sizes its result; the model answers nothing there. The service never asks for less than 1.
- Queues.Queue.Pull: requires that no id is cached under an empty queue name, which every request keeps, because storage rejects such messages.
- Configuration.ReadsLastEditIff: one service instance; a second instance would hold its own local cache.
