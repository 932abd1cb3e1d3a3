# chrono-cache: a verified model

chrono-cache is an in-memory cache server: a chained hash map under striped locks, entries with a time to live,
an event log that is replayed at start-up, sorted sets on an AVL tree, and a RESP front end over length-prefixed
frames. This project models those parts in Dafny and proves what they are for. `dafny verify dfyconfig.toml`
checks it.

* **Sorted sets.** `ValueOrder`, `TreeShape` (what the tree means, and the theory of its rotations, heights and
  ranks), `AvlTree` (heap nodes rewritten in place, with cached heights and sizes), `SortedSets` (tree and
  member-to-score map kept in step by ZADD and ZREM).
* **Hash map.** `BitMask` (bucket masks and lock stripes), `Metrics`, `KVStore` (head, tail and length arrays over
  linked nodes, relinked by a growing rehash, refining a finite map), `HashMap` (growth by doubling).
* **Cache, log and replay.** `Events`, `CacheSpec` (what each command does to entries, counters and log),
  `ChronoCache` (the object and its loops, proved against `CacheSpec`), `Lifecycle` (two cache objects, one restarted
  from the other's topic), `TimedMap` (lazy expiry is unobservable),
  `Replay` (the sequence filter), `Sessions` (numbers over many restarts), `Restart` and `LiveRestart` (what
  replay gives back of what a cache showed).
* **Locking.** `StripedLog`: any number of threads as a transition system, with counter increments split into read
  and write, so that the stripe locks are what makes them safe. `Turns`: what each command does in any interleaving.
  `Serial`: commands one after the other.
* **Wire format.** `Numerals`, `Resp` (a prefix code, inverse to the serializer), `RespGrammar` (exactly which bytes
  parse to which value), `Framing` (the connection's
  buffers over any chunking). The format is the Redis serialization protocol specification (RESP2), sections
  "Simple strings", "Simple errors", "Integers", "Bulk strings" and "Arrays".

`Common` holds what several modules share. Classes hold ghost fields for the abstract value; methods that change
state are tied to functions, and the main results are lemmas about those functions.

Where code and expectations part, the model follows the code, and the exact condition is a lemma:

* An entry is alive while `now <= expiry`, but replay drops an event when `expiry <= now`: a key that expires at
  exactly the replay instant is visible live and missing after a restart (`Restart.KeyExpiresAtRestart`).
* Replay skips an expired SET or EXPIRE instead of removing the key, so an older event that is still in the log
  brings the key back (`Restart.ExpiredKeyComesBack`). `Replay.ReplayedEntry` says what any log leaves of any key,
  and `Replay.ComesBack` is the exact condition.
* A SET with a TTL of 0 or less is logged with that TTL and replayed as one without
  (`Restart.NonPositiveTtlIsForgotten`); the command handler never passes one.
* A restart restores a key if and only if none of these three applies (`Restart.RestartFidelity`). Over any number
  of such restarts nothing but DEL can tell that there were any (`Restart.RestartsAreUnobservable`), and after any
  other one GET or PTTL can (`Restart.FailedRestartShows`).
* After a restart that did lose a key or bring one back, the cache that goes on is the measure:
  `LiveRestart.LiveFidelity` says exactly when the next restart shows what it showed, for any history.
* DEL does not look at expiry, so its answer tells whether an expired entry has been swept
  (`TimedMap.DelReply`, `TimedMap.DelSeesUnsweptEntries`).
* In a concurrent run an event is stamped after its entry was built, so the logged expiry may be later than the
  stored one (`StripedLog.LoggedExpiryIsLater`). A key at rest is restored if and only if no older event comes back
  and the two do not part at the restart (`StripedLog.ConcurrentRestart`).
* The stripes of a table with fewer than 16 buckets move when it grows (`BitMask.StripesSurviveDoubling`); the
  cache starts with 16.
* One doubling brings the load down to 0.75 if and only if it was at most 1.5
  (`HashMap.ChronCacheHashMap.MaybeResize`); `HashMap.TwoInsertionsBeforeGrowth` makes a table where it was not.
* The error reply has no escape for line ends (`Resp.ErrorRoundTrip`), and the numeral parser overflows on
  integers that the 64-bit serializer writes (`Resp.IntegerRoundTrip`).

## Model

| member | source | states |
|---|---|---|
| `ValueOrder.LessIsStrictTotalOrder` | src/cpp/cache/sorted_sets/tree.h:28-41 | `operator<` on (score, member) is irreflexive, transitive and total, so "neither less nor greater" is equality |
| `ValueOrder.LessByScoreThenMember` | src/cpp/cache/sorted_sets/tree.h:28-33 | the smaller score comes first; where scores agree, the proper prefix or the member with the smaller character at the first difference |
| `TreeShape.RotateRightKeeps` | src/cpp/cache/sorted_sets/tree.cpp:113-131 | a right rotation keeps the in-order listing, and with it the stored values and their order |
| `TreeShape.RotateLeftKeeps` | src/cpp/cache/sorted_sets/tree.cpp:133-151 | a left rotation keeps the in-order listing, and with it the stored values and their order |
| `TreeShape.RebalanceRestores` | src/cpp/cache/sorted_sets/tree.cpp:87-111 | a node whose subtrees are balanced and whose own balance is off by at most 2 is balanced again, keeps its in-order listing, and loses at most one level |
| `AvlTree.Node.GetBalance` | src/cpp/cache/sorted_sets/tree.h:57-61 | the cached heights give the true balance |
| `AvlTree.Node.Recompute` | src/cpp/cache/sorted_sets/tree.h:63-73 | from valid, separate subtrees, both caches become exact |
| `AvlTree.RightRotate` | src/cpp/cache/sorted_sets/tree.cpp:113-131 | the pointer rotation yields a valid node whose shape is the rotated shape, out of the same nodes; without a node or a left child nothing changes |
| `AvlTree.LeftRotate` | src/cpp/cache/sorted_sets/tree.cpp:133-151 | the same for the left rotation and the right child |
| `AvlTree.RebalanceNode` | src/cpp/cache/sorted_sets/tree.cpp:87-111 | the four cases, by pointers, give the rebalanced shape out of the same nodes; null stays null |
| `AvlTree.AttachLeft` | src/cpp/cache/sorted_sets/tree.cpp:36-38 | recomputing and rebalancing a node with a new left subtree: the rebalanced shape, out of the same nodes |
| `AvlTree.AttachRight` | src/cpp/cache/sorted_sets/tree.cpp:82-84 | the same with a new right subtree |
| `AvlTree.InsertNode` | src/cpp/cache/sorted_sets/tree.cpp:23-39 | in place: AVL again, acyclic and unshared, exact caches, contents plus `v`, at most one level taller |
| `AvlTree.EraseNode` | src/cpp/cache/sorted_sets/tree.cpp:41-85 | in place: AVL again, contents minus `v`, only old nodes reused, at most one level lower |
| `AvlTree.EraseByLifting` | src/cpp/cache/sorted_sets/tree.cpp:54-66 | a node with at most one child gives way to that child |
| `AvlTree.EraseBySuccessor` | src/cpp/cache/sorted_sets/tree.cpp:67-75 | a node with two children takes its successor's value, which is erased on the right |
| `AvlTree.FindSuccessor` | src/cpp/cache/sorted_sets/tree.cpp:69-72 | the descent ends at the leftmost node |
| `TreeShape.LeftmostIsMinimum` | src/cpp/cache/sorted_sets/tree.cpp:68-74 | that node holds the least value of the subtree |
| `AvlTree.AVLTree.Insert` | src/cpp/cache/sorted_sets/tree.cpp:9-14 | the set gains `v`; the size comparison is true exactly when `v` was absent |
| `AvlTree.AVLTree.Erase` | src/cpp/cache/sorted_sets/tree.cpp:16-21 | the set loses `v`; the size comparison is true exactly when `v` was present |
| `TreeShape.SizeTellsChange` | src/cpp/cache/sorted_sets/tree.cpp:10-20 | sizes before and after tell exactly whether the set changed |
| `TreeShape.HeightIsLogarithmic` | src/cpp/cache/sorted_sets/tree.h:57-67 | a balanced tree of height h holds at least Fib(h + 3) - 1 values |
| `AvlTree.RankNode` | src/cpp/cache/sorted_sets/tree.cpp:157-171 | one root-to-leaf walk counts all stored values below `v`, present or not |
| `AvlTree.AVLTree.Rank` | src/cpp/cache/sorted_sets/tree.cpp:153-155 | rank is the number of stored values below `v` |
| `TreeShape.BelowByBranch` | src/cpp/cache/sorted_sets/tree.cpp:162-170 | each of the three branches accounts for exactly the values below `v` |
| `TreeShape.RankOfPosition` | src/cpp/cache/sorted_sets/tree.cpp:153-171 | the k-th value of the in-order listing has rank k |
| `TreeShape.RankIsPosition` | src/cpp/cache/sorted_sets/tree.cpp:153-171 | on stored values rank is an order-preserving bijection onto 0..size-1 |
| `SortedSets.SortedSet.Add` | src/cpp/cache/sorted_sets/sorted_set.cpp:18-32 | tree and map agree again; the score is set; true exactly for a new member; the inner erase finds its pair |
| `SortedSets.SortedSet.Remove` | src/cpp/cache/sorted_sets/sorted_set.cpp:55-62 | tree and map agree again; the member is gone; true exactly if it was there |
| `SortedSets.SortedSetsAPI.GetOrCreateSet` | src/cpp/cache/sorted_sets/sorted_set.cpp:7-9 | a missing set is created empty; no other set changes |
| `SortedSets.SortedSetsAPI.ZAdd` | src/cpp/cache/sorted_sets/sorted_set.cpp:15-33 | one set gains one score, and is created if need be; no other member or set changes; true exactly if the member was not there |
| `SortedSets.SortedSetsAPI.ZRem` | src/cpp/cache/sorted_sets/sorted_set.cpp:48-63 | one member leaves its set; a missing set or member changes nothing; true exactly if the member was there |
| `SortedSets.SortedSetsAPI.ZScore` | src/cpp/cache/sorted_sets/sorted_set.cpp:35-46 | the stored score, or nothing |
| `SortedSets.SortedSetsAPI.ZRank` | src/cpp/cache/sorted_sets/sorted_set.cpp:65-77 | the number of members with a smaller score, plus those with the same score that are smaller members; nothing for a missing one |
| `SortedSets.SortedSetsAPI.Run` | src/cpp/cache/sorted_sets/sorted_set.cpp:15-77 | after any commands a member has the score of its last ZADD if no ZREM of it came later, and none otherwise; every reply says, by that rule, whether the member was there; all trees stay in step |
| `SortedSets.LastCommandDecides` | src/cpp/cache/sorted_sets/sorted_set.cpp:15-63 | the last command that concerns a member decides its score |
| `SortedSets.RankByScoreThenMember` | src/cpp/cache/sorted_sets/sorted_set.cpp:65-77 | the members before a member are those with smaller scores and the smaller members with the same score |
| `SortedSets.RankCountsMembers` | src/cpp/cache/sorted_sets/sorted_set.cpp:65-77 | counting tree values below a pair is counting members before a member |
| `SortedSets.RanksOrderMembers` | src/cpp/cache/sorted_sets/sorted_set.cpp:65-77 | ranks of one set are distinct, below its size, and ordered like the values |
| `SortedSets.RanksFillUp` | src/cpp/cache/sorted_sets/sorted_set.cpp:65-77 | every number below the size is some member's rank |
| `BitMask.Pow2TestIsExact` | src/cpp/cache/kv_store/store.h:162-165 | the bit test of the capacity guards accepts exactly the powers of two |
| `BitMask.MaskIsModulus` | src/cpp/cache/kv_store/store.h:85-90 | masking with n - 1 is the remainder modulo n, for n a power of two |
| `BitMask.BucketIsModulus` | src/cpp/cache/kv_store/store.h:85-90 | the bucket of a key is its hash modulo the capacity |
| `BitMask.StripeIsHashMod16` | src/cpp/cache/kv_store/hash_map.h:20-22 | from capacity 16 on, the stripe of a key is its hash modulo 16, for every capacity |
| `BitMask.StripesSurviveDoubling` | src/cpp/cache/kv_store/hash_map.h:39-51 | doubling keeps every key's stripe if and only if the capacity is at least 16 |
| `Metrics.ChronCacheHashMapMetrics.NewElementEvent` | src/cpp/cache/kv_store/metrics.h:24-33 | entries, collisions, longest chain and load after one more element; keeps the metrics true of the chain lengths, and exact if they were |
| `Metrics.ChronCacheHashMapMetrics.RemoveElementEvent` | src/cpp/cache/kv_store/metrics.h:35-38 | entries and load after one element less; collisions and longest chain stay as upper bounds |
| `Metrics.ChronCacheHashMapMetrics.ResizeEventTriggered` | src/cpp/cache/kv_store/metrics.h:40-52 | resets the counters and counts the resize, or throws and changes nothing |
| `KVStore.KVStore.Make` | src/cpp/cache/kv_store/store.h:67-73 | an empty valid table for a power of two, an exception for anything else |
| `KVStore.KVStore.FindInBucket` | src/cpp/cache/kv_store/store.h:92-104 | the walk along a chain finds the key's one node, or null |
| `KVStore.KVStore.LinkAtTail` | src/cpp/cache/kv_store/store.h:144-156 | the chain of one bucket gains the node at its tail; heads, tails, lengths and all other chains stay right |
| `KVStore.KVStore.InsertIntoBucket` | src/cpp/cache/kv_store/store.h:144-158 | appending an absent key's node keeps chains, index and metrics in agreement |
| `KVStore.KVStore.UnlinkFromBucketChain` | src/cpp/cache/kv_store/store.h:106-121 | predecessor or head, tail and length after unlinking one node, first, middle or last |
| `KVStore.KVStore.Unchain` | src/cpp/cache/kv_store/store.h:106-121 | unlinking leaves a well-formed chain without that node, and every other chain as it was |
| `KVStore.KVStore.ResetToCapacity` | src/cpp/cache/kv_store/store.h:160-171 | every bucket is empty; for a capacity that is no power of two it throws and changes nothing |
| `KVStore.KVStore.NeedsResizeIsExact` | src/cpp/cache/kv_store/store.h:185-188 | the load factor test is exactly entries > threshold * capacity |
| `KVStore.KVStore.Set` | src/cpp/cache/kv_store/store.h:190-201 | the represented map changes at the key only; nodes of other keys keep their identity |
| `KVStore.KVStore.GetPtr` | src/cpp/cache/kv_store/store.h:203-209 | the node that owns the key's value slot, or null |
| `KVStore.KVStore.Get` | src/cpp/cache/kv_store/store.h:218-223 | the map's value, or nothing |
| `KVStore.KVStore.GetOrAdd` | src/cpp/cache/kv_store/store.h:232-241 | the key's node; an absent key is added with the default value; all earlier nodes keep their identity |
| `KVStore.KVStore.Remove` | src/cpp/cache/kv_store/store.h:243-261 | the key is gone and nothing else; true exactly if it was there |
| `KVStore.KVStore.FindWithPredecessor` | src/cpp/cache/kv_store/store.h:245-257 | the trailing pointer is the node's predecessor in its chain, null for the head |
| `KVStore.KVStore.CollectNodes` | src/cpp/cache/kv_store/store.h:273-282 | lists the node of every stored key once |
| `KVStore.KVStore.Reinsert` | src/cpp/cache/kv_store/store.h:287-291 | relinks the same nodes, one by one, into a table that maps the same keys to the same nodes |
| `KVStore.KVStore.Resize` | src/cpp/cache/kv_store/store.h:263-292 | grows to a larger power of two with the same map and the same nodes, exact metrics and one more resize; otherwise throws and changes nothing |
| `HashMap.ChronCacheHashMap.MaybeResize` | src/cpp/cache/kv_store/hash_map.h:46-51 | doubles exactly when 4 * entries > 3 * capacity, keeps map and nodes; the load is at most 0.75 afterwards if and only if it was at most 1.5 |
| `HashMap.TwoInsertionsBeforeGrowth` | src/cpp/cache/kv_store/hash_map.h:69-81 | two insertions before the growth they call for leave a table that one doubling does not bring below 0.75 |
| `HashMap.ChronCacheHashMap.Set` | src/cpp/cache/kv_store/hash_map.h:69-81 | one key changes; the load is at most 0.75 afterwards; earlier slots survive the growth |
| `HashMap.ChronCacheHashMap.Get` | src/cpp/cache/kv_store/hash_map.h:93-96 | the map's value, or nothing |
| `HashMap.ChronCacheHashMap.GetOrAdd` | src/cpp/cache/kv_store/hash_map.h:103-113 | the slot handed out is the key's slot even after the growth that this call triggers |
| `HashMap.ChronCacheHashMap.Remove` | src/cpp/cache/kv_store/hash_map.h:119-125 | removes one key; true exactly if it was there |
| `HashMap.ChronCacheHashMap.ProcessAndRemoveIf` | src/cpp/cache/kv_store/hash_map.h:132-140 | a missing key changes nothing; otherwise the key's value is rewritten or removed as the callback says, and no other key changes |
| `HashMap.ChronCacheHashMap.Resize` | src/cpp/cache/kv_store/hash_map.h:127-130 | same map, same nodes; both exceptions leave everything unchanged |
| `ChronoCache.CacheEventLogger.SetSeqCounters` | src/cpp/cache/kafka_logging/event_logger.cpp:8-12 | the loop copies the whole table over the counters |
| `ChronoCache.CacheEventLogger.NextSeq` | src/cpp/cache/kafka_logging/event_logger.cpp:14-25 | one more than the key's counter, 0 if missing, and stored back |
| `ChronoCache.CacheEventLogger.LogSet` | src/cpp/cache/kafka_logging/event_logger.cpp:33-42 | numbers and appends a SET event |
| `ChronoCache.CacheEventLogger.LogDel` | src/cpp/cache/kafka_logging/event_logger.cpp:44-52 | numbers and appends a DELETE event |
| `ChronoCache.CacheEventLogger.LogExpire` | src/cpp/cache/kafka_logging/event_logger.cpp:54-63 | numbers and appends an EXPIRE event that carries the value |
| `ChronoCache.CacheEventLogger.LogPersist` | src/cpp/cache/kafka_logging/event_logger.cpp:65-74 | numbers and appends a PERSIST event that carries the value |
| `ChronoCache.ChronoCache.CheckLoggingAllowed` | src/cpp/cache/chrono_cache.cpp:16-24 | logs exactly when READY and logging is not disabled; its exception cannot arise |
| `ChronoCache.ChronoCache.Set` | src/cpp/cache/chrono_cache.cpp:36-49 | throws unless READY or REPLAYING; else stores the entry, and a READY cache that logs appends one SET event with the next number |
| `ChronoCache.ChronoCache.SweepAndFind` | src/cpp/cache/kv_store/hash_map.h:132-140 | an expired entry is removed, a live one is handed to the command |
| `ChronoCache.ChronoCache.Get` | src/cpp/cache/chrono_cache.cpp:51-63 | the value of an entry that has not expired; an expired one is removed |
| `ChronoCache.ChronoCache.Del` | src/cpp/cache/chrono_cache.cpp:65-74 | removes a stored entry, expired or not, and logs a DELETE; true exactly if there was one |
| `ChronoCache.ChronoCache.Expire` | src/cpp/cache/chrono_cache.cpp:76-98 | a live entry gets the new expiry and an EXPIRE event with its value; an expired one is removed; a TTL of 0 or less throws |
| `ChronoCache.ChronoCache.Pttl` | src/cpp/cache/chrono_cache.cpp:100-111 | -2, -1 or the time left; an expired entry is removed |
| `ChronoCache.ChronoCache.Persist` | src/cpp/cache/chrono_cache.cpp:113-133 | a live entry with an expiry loses it and a PERSIST event is logged; else false |
| `ChronoCache.ChronoCache.ReplayEvents` | src/cpp/cache/chrono_cache.cpp:164-220 | the replay loop computes the replay function, seeds the counters with its table, and logs nothing |
| `ChronoCache.ChronoCache.Init` | src/cpp/cache/chrono_cache.cpp:223-257 | every lifecycle branch: already READY, wrong state, no replay, failed replay, replay |
| `ChronoCache.ChronoCache.ExecuteAll` | src/cpp/cache/chrono_cache.cpp:36-133 | a READY cache does and answers what the run of the calls does, with logging unless it is disabled |
| `Lifecycle.Serve` | src/cpp/cache/chrono_cache.cpp:36-133 | a new cache that logs ends any calls with the entries, counters and log of the run, and gives its answers |
| `Lifecycle.ServeAndRestart` | src/cpp/cache/chrono_cache.cpp:160-257 | a second cache that replays what is delivered of the first one's topic shows a key as the first one goes on to show it if and only if the restart restores the key; it counts on from the first one's counters |
| `TimedMap.LazyExpiryIsUnobservable` | src/cpp/cache/chrono_cache.cpp:51-133 | every reply but DEL's, in any run with a nondecreasing clock, is that of a timed map visible exactly while now <= expiry |
| `TimedMap.RunSimulates` | src/cpp/cache/cache_entry.h:24-51 | after any run the stored entries are those of the timed map less some that have expired |
| `TimedMap.DelReply` | src/cpp/cache/chrono_cache.cpp:65-74 | DEL answers like the timed map if and only if it meets no unswept expired entry |
| `TimedMap.DelSeesUnsweptEntries` | src/cpp/cache/chrono_cache.cpp:65-74 | a run in which an earlier GET changes the answer of DEL |
| `TimedMap.PttlReply` | src/cpp/cache/chrono_cache.cpp:100-111 | PTTL is -2 without an entry, -1 without expiry, else the exact non-negative remainder |
| `Replay.EffectOnKey` | src/cpp/cache/chrono_cache.cpp:181-215 | one event sets its own key to its own meaning, or nothing if its instant has been reached; no other key changes |
| `Replay.ReplayIsPerKey` | src/cpp/cache/chrono_cache.cpp:164-216 | what replay gives a key depends on that key's events only |
| `Replay.MergeOrderIsIrrelevant` | src/cpp/cache/chrono_cache.cpp:164-216 | logs that keep each key's own order replay to the same entries and the same table |
| `Replay.ReplayedEntry` | src/cpp/cache/chrono_cache.cpp:164-216 | for any log, what replay leaves of a key is the effect of the last event that passes the filter and has not expired |
| `Replay.WinnerDecides` | src/cpp/cache/chrono_cache.cpp:176-205 | in any order, with duplicates: an unexpired highest-numbered event decides its key; after an expired one the key is absent if and only if no older event comes back |
| `Replay.LastWriterWins` | src/cpp/cache/chrono_cache.cpp:176-179 | an unexpired highest-numbered event alone decides its key |
| `Replay.OtherEventsAreIrrelevant` | src/cpp/cache/chrono_cache.cpp:176-179 | dropping, repeating or permuting the other events changes nothing |
| `Replay.WinnerPassesLast` | src/cpp/cache/chrono_cache.cpp:176-179 | the highest-numbered event is the last to pass the filter |
| `Replay.TableIsMaxSeq` | src/cpp/cache/chrono_cache.cpp:164-179 | the table holds each key's highest number |
| `Restart.CompactKeepsLast` | README.md:38 | compaction by key keeps exactly the last event of each key |
| `Restart.CompactCarries` | README.md:38 | a log compacted by key delivers every key's last event and brings no older one back |
| `Restart.ServeTells` | src/cpp/cache/chrono_cache.cpp:36-133 | after every command the last event of every key tells the timed map's entry of that key |
| `Restart.ReplayGives` | src/cpp/cache/chrono_cache.cpp:164-216 | what replay gives a key, from any delivery that carries its last event, in any order and with any older events |
| `Restart.RestartFidelity` | src/cpp/cache/chrono_cache.cpp:164-216 | after any orderly history, replay of any such delivery shows the same value and expiry of a key, now and ever after, as the timed map and as the live cache, if and only if the key does not expire at the replay instant, no older event comes back, and it was not last set with a non-positive TTL |
| `Restart.RunFidelity` | src/cpp/cache/chrono_cache.cpp:36-216 | the same for one cache and any run of its commands |
| `Restart.CompactedRestart` | README.md:38 | from a compacted topic only the instant of expiry and the non-positive TTL remain as exceptions |
| `Restart.RestartsAreUnobservable` | src/cpp/cache/chrono_cache.cpp:160-257 | over any number of sessions, whatever the log service made of the log, every reply but DEL's is that of a timed map that never restarts |
| `Restart.FailedRestartShows` | src/cpp/cache/chrono_cache.cpp:160-257 | right after a restart GET and PTTL of a key are both answered like the timed map answers them if and only if the restart restored the key |
| `LiveRestart.SessionsAnswerLikeTheirMap` | src/cpp/cache/chrono_cache.cpp:51-133 | in any history every reply but DEL's is that of a timed map started from what the last replay left |
| `LiveRestart.LiveFidelity` | src/cpp/cache/chrono_cache.cpp:160-257 | after any history, whatever earlier restarts lost or brought back, replay shows a key as the running cache does if and only if: for a key logged in this session, none of the three failures applies; for any other, what decides it now means what decided it at the last replay, as far as that is alive |
| `LiveRestart.SameEventsAgain` | src/cpp/cache/chrono_cache.cpp:176-205 | a key decided twice from the same events survives the second restart unless the event that decided the first has expired, just then or with an older one to bring it back |
| `Restart.SessionIsRun` | src/cpp/cache/chrono_cache.cpp:223-257 | a first session logs and holds what a plain run of its commands does |
| `Restart.ExpiredKeyComesBack` | src/cpp/cache/chrono_cache.cpp:199-205 | SET, EXPIRE, and a restart from the full log after the expiry: the key is back without a TTL |
| `Restart.KeyExpiresAtRestart` | src/cpp/cache/chrono_cache.cpp:183-185 | a run whose key is visible live and missing after a restart at the instant of its expiry |
| `Restart.NonPositiveTtlIsForgotten` | src/cpp/cache/chrono_cache.cpp:183-190 | a SET with such a TTL is gone live and permanent after a restart |
| `Sessions.NextSound` | src/cpp/cache/kafka_logging/event_logger.cpp:8-25 | commands, crashes, restarts and the log service keep numbers increasing and counters at each key's highest |
| `Sessions.SessionsAreSound` | src/cpp/cache/chrono_cache.cpp:164-257 | so it is over any number of sessions |
| `Sessions.NewEventsAreNumberedAbove` | src/cpp/cache/chrono_cache.cpp:176-220 | replay logs nothing; whatever is logged after any moment is numbered above all of its key before |
| `StripedLog.NextLocks` | src/cpp/cache/kv_store/hash_map.h:33-51 | every step keeps the locks consistent, and the stripe computed before locking stays the stripe of its key |
| `StripedLog.BucketHoldsUntilRelease` | src/cpp/cache/kv_store/hash_map.h:39-51 | in every interleaving, the bucket computed on the way in is the bucket of the key until the thread releases its locks |
| `StripedLog.MutualExclusion` | src/cpp/cache/kafka_logging/event_logger.cpp:15-22 | the comment's argument, in every interleaving: two threads that hold stripes for one key, or for hashes equal modulo 16, are one thread |
| `StripedLog.NextSound` | src/cpp/cache/kafka_logging/event_logger.cpp:14-25 | every step of every thread keeps entry, counter and log of every key in agreement, up to the holder's phase |
| `StripedLog.LogAgreesWithCache` | src/cpp/cache/kv_store/hash_map.h:69-140 | in every interleaving numbers increase in log order, and a key whose stripe is free has the entry that its last event means, with the expiry its command stored, or none after a DELETE or once that expiry has passed |
| `Turns.TurnDoesItsCommand` | src/cpp/cache/kv_store/hash_map.h:69-140 | in every interleaving, from taking its stripe to releasing it, a command does to its key what it does alone at the instant of its map change, and logs what it logs alone, up to a later timestamp |
| `Turns.OthersKeepAway` | src/cpp/cache/kafka_logging/event_logger.cpp:15-22 | while a thread holds its key's stripe, no other thread's step touches that key's entry, counter or events |
| `Serial.SerialRun` | src/cpp/cache/kv_store/hash_map.h:69-140 | any commands, served one after the other, are an interleaving that ends with the entries, counters and log of the run |
| `Serial.GrowthIsPossible` | src/cpp/cache/kv_store/hash_map.h:46-51 | a table at rest can grow, and only its capacity changes |
| `StripedLog.ConcurrentRestart` | src/cpp/cache/chrono_cache.cpp:164-216 | after any interleaving and from any delivery, replay shows a key at rest as the live cache does, now and ever after, if and only if no older event comes back and stored and logged expiry do not part at that instant; if nothing comes back, what else is visible lies between the two |
| `StripedLog.LoggedExpiryIsLater` | src/cpp/cache/kafka_logging/event_logger.cpp:33-42 | an interleaving whose event is stamped after its entry was built: stored expiry 5, logged expiry 6 |
| `Numerals.ParseStringAsInt` | src/cpp/server/request_handler/utils.cpp:5-29 | the digit loop computes the numeral, or rejects it, or overflows |
| `Numerals.ParseUndoesPrint` | src/cpp/server/request_handler/utils.cpp:5-29 | parsing a printed integer gives it back exactly when its magnitude is below 2^31 |
| `Numerals.ParseIntMeans` | src/cpp/server/request_handler/utils.cpp:5-29 | accepted are exactly an optional sign and digits, leading zeros allowed, at their positional value if below 2^31; it overflows exactly when leading digits exceed that; all else is rejected |
| `Numerals.PrintIsCanonical` | src/cpp/server/request_handler/resp_serializer.cpp:13-18 | a printed number has a minus sign only if negative, no leading zero, and digits of its value |
| `Resp.FindCrlf` | src/cpp/server/request_handler/resp_parser.cpp:153-160 | the first line end, if there is one |
| `Resp.ParseBuffer` | src/cpp/server/request_handler/resp_parser.cpp:11-24 | the parser as it runs computes the grammar |
| `Resp.ParseArrayBuffer` | src/cpp/server/request_handler/resp_parser.cpp:112-135 | header cases of an array |
| `Resp.ParseItems` | src/cpp/server/request_handler/resp_parser.cpp:135-151 | the element loop computes the recursive array grammar, each element from a shorter suffix |
| `Resp.PrefixCode` | src/cpp/server/request_handler/resp_parser.cpp:11-151 | if a buffer parses with n bytes, every shorter prefix needs more, and every prefix of n bytes or more parses to the same value |
| `Resp.Settled` | src/cpp/server/request_handler/resp_parser.cpp:11-151 | any decided outcome stays the same when more bytes follow |
| `Resp.NoMessageInsideAnother` | src/cpp/server/request_handler/resp_parser.cpp:11-151 | no complete message is a proper prefix of another |
| `RespGrammar.ParsesExactly` | src/cpp/server/request_handler/resp_parser.cpp:11-151 | the parser yields a value and a size exactly if the first so many bytes are a message with that value, by a grammar that does not mention the parser |
| `RespGrammar.RoundTrip` | src/cpp/server/request_handler/resp_parser.cpp:11-151 | any value, however nested, comes back from its encoding if and only if no line holds a line end and its numbers fit |
| `RespGrammar.UnknownByteFails` | src/cpp/server/request_handler/resp_parser.cpp:16-23 | an unknown type byte is refused |
| `RespGrammar.UnendedLineNeedsMore` | src/cpp/server/request_handler/resp_parser.cpp:31-34 | a line that has not ended needs more bytes |
| `RespGrammar.BadHeaderFails` | src/cpp/server/request_handler/resp_parser.cpp:66-69 | a header that is no numeral is refused, or overflows if its digits are too large |
| `RespGrammar.NegativeLengthFails` | src/cpp/server/request_handler/resp_parser.cpp:89-95 | a length or count below -1 is refused |
| `RespGrammar.BadTerminatorFails` | src/cpp/server/request_handler/resp_parser.cpp:97-106 | a bulk string that is not all there needs more; one without its line end is refused |
| `RespGrammar.ArrayStopsWithElement` | src/cpp/server/request_handler/resp_parser.cpp:137-145 | an array fails, overflows or waits with its first element that does not parse |
| `Resp.WriteArray` | src/cpp/server/request_handler/resp_serializer.cpp:25-31 | the loop writes the array of bulk strings |
| `Resp.ErrorRoundTrip` | src/cpp/server/request_handler/resp_serializer.cpp:9-11 | an error message comes back if and only if it holds no line end |
| `Resp.IntegerRoundTrip` | src/cpp/server/request_handler/resp_serializer.cpp:13-15 | integers below 2^31 in magnitude come back, the others overflow |
| `Resp.BulkRoundTrip` | src/cpp/server/request_handler/resp_serializer.cpp:17-19 | any bytes come back, whatever follows, and exactly their serialization is consumed |
| `Resp.NullBulkRoundTrip` | src/cpp/server/request_handler/resp_serializer.cpp:21-23 | the null bulk string comes back |
| `Resp.ArrayRoundTrip` | src/cpp/server/request_handler/resp_serializer.cpp:25-31 | a command comes back item by item and uses up exactly its own bytes |
| `Resp.CommandsAreSelfDelimiting` | src/cpp/server/request_handler/resp_serializer.cpp:25-31 | one serialized command is no proper prefix of another, and different ones differ |
| `Framing.FrontIsFrame` | src/cpp/server/connection.h:114-139 | a request taken from the front is the first frame of the buffer |
| `Framing.FrameIsFront` | src/cpp/server/connection.h:142-148 | a frame yields its message if and only if that is within the size limit |
| `Framing.FrontByCase` | src/cpp/server/connection.h:114-139 | byte for byte: oversize exactly above 32 MiB, incomplete exactly before all bytes are there, else the request |
| `Framing.FrameByBytes` | src/cpp/server/connection.h:142-145 | four bytes of size, most significant first, and the data |
| `Framing.DrainConserves` | src/cpp/server/connection.h:72-79 | frames of the requests plus what is left is what was there |
| `Framing.DrainMore` | src/cpp/server/connection.h:67-79 | draining in two goes is draining at once |
| `Framing.ChunkingIsIrrelevant` | src/cpp/server/connection.h:67-81 | the requests delivered, and closing on an oversize frame, do not depend on how the stream is cut |
| `Framing.FeedConserves` | src/cpp/server/connection.h:67-81 | requests re-framed plus the bytes kept are the bytes received, and the bytes kept hold no complete frame |
| `Framing.MessagesArrive` | src/cpp/server/connection.h:103-148 | framed messages arrive complete and in order over any chunking |
| `Framing.Connection.TryOneRequest` | src/cpp/server/connection.h:103-140 | takes off the first frame, or nothing; asks to close on an oversize one |
| `Framing.Connection.HandleRead` | src/cpp/server/connection.h:47-82 | one read, then all complete requests, and the four results of `read` |
| `Framing.Connection.HandleWrite` | src/cpp/server/connection.h:84-101 | after any partial write, written plus queued is still all replies framed, `want_write` exactly while something is queued, `want_read` exactly otherwise |
| `Framing.Connection.EnqueueResponse` | src/cpp/server/connection.h:142-148 | queues one frame and keeps the same invariant |
| `Framing.Connection.ReadAll` | src/cpp/server/connection.h:47-82 | any sequence of reads delivers what the whole stream holds |

## Left out

- Composition of the containers: the maps inside `SortedSets` and `ChronoCache` are plain `map` fields; that the
  hash map behaves as such a map is proved separately in `KVStore` and `HashMap`.
- HashMap.ChronCacheHashMap.Set: requires that growing does not call for a capacity beyond 2^30, because doubling
  it overflows a 32-bit int. Hashes are unbounded naturals, and `std::hash` is an uninterpreted function.
- KVStore.KVStore.constructor: requires a power of two, as a Dafny constructor cannot fail; `Make` has the exception.
- KVStore.KVStore.NeedsResizeIsExact: compares an exact quotient, where the source compares doubles.
- Serial.SerialRun: commands carry positive TTLs, as the command handler checks.
- Restart.CompactKeepsLast: a topic may keep more than each key's last event; that is what the other results of
  `Restart` are about.
- HashMap.ChronCacheHashMap.GetOrAdd: the same bound.
- HashMap.ChronCacheHashMap.MaybeResize: the same bound.
- KVStore.KVStore.InsertIntoBucket: a null `next` pointer is required of the node, as new and detached nodes have.
- Metrics.ChronCacheHashMapMetrics.NewElementEvent: the load factor is kept as an exact quotient; for capacities
  that are powers of two and the threshold 0.75 the comparison in `double` is exact.
- AvlTree.RightRotate: links and caches are assigned child first, and height and size together; the final state is
  the source's.
- ChronoCache.CacheEventLogger.NextSeq: counters are unbounded, without the wrap-around at 2^64.
- ChronoCache.ChronoCache.Init: `init(false)` over an existing log and concurrent calls of `init` are not part of
  the later results.
- Restart.RestartsAreUnobservable: assumes of each restart on the way that it restored every key, in the sense of
  `Restart.RestartFidelity`; histories with another one are the subject of `LiveRestart`.
- Restart.RestartFidelity: one clock reading per operation, in whole milliseconds, that never goes back; the
  clock is frozen during replay. `StripedLog` lets the clock move between the steps of one operation.
- StripedLog.LogAgreesWithCache: commands carry positive TTLs, as the command handler checks; map operations are
  atomic steps, readers take the stripe like writers do, and a thread may grow the table at any time it is idle;
  unlocked reads of the load factor, unsynchronised metrics and memory ordering are not modelled.
- HashMap.ChronCacheHashMap.ProcessAndRemoveIf: the callback is a pure function of the value; the commands of
  `ChronoCache` write out the lambdas they pass, with their logging.
- Scores are real numbers: no NaN, no infinities, no rounding.
- Resp.ParseItems: nested values do not keep their own byte counts, and an overflowing numeral, which C++ leaves
  undefined, is an outcome of its own.
- Framing.Connection.HandleRead: reads and writes are given by their results; `read`, `write`, `poll`, `accept`,
  the event loop and the worker threads are not modelled.
- The command handler (argument counts, `stoll`, `stod`), `to_upper`, and the Python client.
- The Kafka producer and consumer, JSON encoding, and delivery failures: the log is a sequence that a log service
  may compact, reorder and repeat.
- Memory release (`destroy_all_nodes`, `_destroy`, `delete`).
