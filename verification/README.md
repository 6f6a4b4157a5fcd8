# Verified models of the gateway's stateful components

This Dafny project models the parts of the LLM gateway that carry state or run concurrently, and
proves what holds over every input, every run or every interleaving. `dafny verify dfyconfig.toml`
checks all of it.

| component | files | main results |
|---|---|---|
| Channel-test worker pool | `WorkerPool`, `PoolCancellation` | safety, deadlock freedom and termination of every interleaving; exactly-once runs and an interleaving-independent summary |
| Multi-key management | `MultiKey`, `MultiKeyLaws`, `MultiKeyMeaning`, `MultiKeyProtocol`, `Delimited` | the lock / re-read / modify / write protocol is linearizable; every action entry by entry; deletes re-index key, status, time and reason together |
| Disk cache and body storage | `DiskCache`, `DiskCacheLaws`, `BodySpec`, `BodyStorage`, `BodyRefinement`, `BodyCreation`, `BodyOutcomes`, `CacheRuns`, `CacheFiles`, `CacheBound` | exact eviction, counters against the directory over all runs, one abstract object behind both storages, every answer by the length of the stream, and the usage bound |
| Upstream model reconciliation | `ModelNames`, `UpstreamModels`, `UpstreamLaws`, `UpstreamMeaning`, `UpstreamBatches` | list helpers refine set algebra; exactly when splitting a selection, converging and auto-syncing work |
| Rate limiter | `RateLimit` | the bounded queue refines the unbounded admission log, exact cleaner condition |
| Verification codes | `Verification`, `VerificationRuns` | which codes are accepted over every run, and their conservation over Redis and memory under failures |
| Secret masking | `SecretMask` | no secret survives, idempotence, nothing else changes |
| Metrics | `Metrics`, `Counters`, `Histogram` | injective label keys, capped series, conservation of counts, cumulative buckets |
| Ogg page walk | `OggScan` | visits exactly the pages, yields the maximal granule position |
| Quota arithmetic | `QuotaMath` | rounding, saturation, strict conversion, settlement error bound |

Objects that the program updates in place are classes whose methods are proved equal to a function on
values; the laws are lemmas about those functions and about runs of them. Goroutines and requests are
labelled transition systems. The clock, the file system's failures, directory listings, Redis replies,
JSON decoding, regular-expression matching and upstream answers are parameters, quantified over.

## What the proofs found

- `delete_disabled_keys` on a channel whose keys are all auto-disabled removes nothing: the blank key
  text is skipped by the struct update, all keys stay, and all become enabled (`DeleteDisabledExact`).
- A key text that is an empty JSON array is counted as one key but read as none (`CountMatchesKeys`).
- A key list survives being stored if and only if it reads back from its text (`ReadBackExactly`). A
  channel created from the lines "a", " ", "b" (controller/channel.go:664-672 tests for blank before it
  trims) holds a blank key; deleting its first key shows the auto-disabled "b" as enabled and leaves a
  time past the end (`BlankKeyBreaksDelete`). `ConsistentExactly` says for every action when size and map
  domains stay right, `DeleteExactly` and `AddAppends` which keys are read.
- A requested key with a newline inside is stored as two keys that were never compared with the
  existing ones (`NewlineBypassesDedup`).
- If the read inside the lock fails, the request writes from its old snapshot and drops a key added
  meanwhile (`LostUpdateWithoutReread`).
- The rate limiter needs cleaner expiry + 1 >= duration, neither more nor less (`CleanerCondition`).
- A Redis registration whose reply is lost leaves two copies of a code, which can be consumed twice
  (`LostReplyConsumedTwice`). `ConsumedAtMostRegistered` therefore assumes a failed call has no effect.
- A code registered while Redis failed is still accepted after `DeleteKey` once Redis answers, because only
  the copy in Redis is deleted (`DeletedButAccepted`; `DeletedExactly` for all cases).
- `MaskKey` slices out of range for keys of one to three bytes (`MaskKey` returns `None` there).
- For every metric a run exists that gives its overflow metric 2001 series
  (`OverflowMetricExceedsCap`); `ExceedsExactly` says when a metric exceeds 2000.
- A run can start after a cancellation that falls between a worker's look at the context and its call
  (`RunStartsAfterCancel`): exactly the runs of the workers then past their look (`LateStartsExactly`), at
  most one per worker, and at most one more report (`LateStartsBounded`).
- The spill path accepts a body within the threshold even when the limit is smaller
  (`AcceptsExactly`).
- The usage bound M + max(0, B-T-1) is reached, and it is exceeded by a sync after a drift
  (`SpillReachesBound`, `SyncAfterDriftExceedsBound`); it holds along a run if and only if every sync
  finds the bytes on disk within it (`UsageBounded`).
- An announced content length that is too small raises the bound to M + max(0, B - max(1, T)), which is
  reached too (`ShortAnnouncementReachesBound`).
- `CleanupOldDiskCacheFiles` is documented as not updating the statistics; the code does, and the model follows it.
- The two storages answer an empty read buffer at the end of the data differently
  (`EmptyBufferDiffers`); a disk storage also fails to open a new reader once its file is evicted.
- A model name with a comma is stored as several names. Adding "a,b" and removing "a" keeps "a" in one
  call and loses it in two (`CommaBatchesDiffer`); `BatchingExactly` gives the condition. Detection and
  auto-sync report such a name again and again (`CommaStaysPending`, `AutoSyncLeaves`).
- A model named like an ignore pattern takes the pattern off the ignore list when it is added, and what
  the pattern covered is pending (`PatternDoesNotConverge`).
- A label name with '=' or a value with ',' can make two label sets share a key (`EqualsCollision`,
  `CommaCollision`); a name with ',' cannot (`LabelKeyInjective`).
- A name pending both for adding and for removing is kept by one call and lost by two
  (`BothPendingDiffers`); detection never produces one (`DetectionIsDisjoint`).

## Model

| member | source | states |
|---|---|---|
| `WorkerPool.Normalize` | setting/operation_setting/monitor_setting.go:65-73 | concurrency is forced into 1..32 |
| `WorkerPool.InitInv` | controller/channel-test.go:997-1011 | the pool's invariant holds when it starts |
| `WorkerPool.StepInv` | controller/channel-test.go:1013-1076 | every step of any goroutine keeps the invariant: who holds which position, what has run, what the reducer has |
| `WorkerPool.RunInv` | controller/channel-test.go:1013-1076 | so does every schedule |
| `WorkerPool.Safety` | controller/channel-test.go:1008-1077 | for every schedule: no send on a closed channel and no second close, no position starts twice, only runnable positions start, at most workerCount <= 32 runs in flight |
| `WorkerPool.InFlightExactly` | controller/channel-test.go:1030-1033 | the runs in flight are the workers inside a run |
| `WorkerPool.Progress` | controller/channel-test.go:1013-1076 | in every state satisfying the invariant some goroutine other than the canceller can move unless all have ended |
| `WorkerPool.FuelDecreases` | controller/channel-test.go:1013-1076 | a natural-number measure drops with every step |
| `WorkerPool.Termination` | controller/channel-test.go:1008-1077 | a schedule has at most 8*total + workers + 6 steps, and a schedule that cannot be extended has ended every goroutine |
| `WorkerPool.ExactlyOnce` | controller/channel-test.go:1000-1077 | uncancelled: exactly the non-nil, not manually disabled positions ran, each once; the summary is the sum of all results; the reports are 0,1,...,total |
| `WorkerPool.CancelledSummary` | controller/channel-test.go:1000-1077 | cancelled anywhere: the summary sums exactly the runs that started, and the reports are a prefix of 0,1,...,total |
| `WorkerPool.SummaryFields` | controller/channel-test.go:1063-1077 | uncancelled: each of the five fields of the returned summary is the integer sum of that field of the outcomes at the non-nil positions whose status is not 2 |
| `WorkerPool.StartedFields` | controller/channel-test.go:1063-1077 | cancelled or not: each field is the integer sum over the positions that started |
| `WorkerPool.FullConcurrency` | controller/channel-test.go:1008-1035 | the bound is reached: with runnable channels a schedule has min(concurrency forced into 1..32, total) runs in flight at once |
| `WorkerPool.IntervalPauses` | controller/channel-test.go:1037-1043 | after delivering, a worker has to wait before it can take a job if and only if there is a request interval |
| `PoolCancellation.AfterCancel` | controller/channel-test.go:1025-1032 | after a cancellation only workers already past their look at the context start a run, and a report is made only if the reducer was past its own |
| `PoolCancellation.LateStartsExactly` | controller/channel-test.go:1025-1035 | when the caller returns, the runs started after a cancellation are exactly those of the workers that were past their check with a runnable position |
| `PoolCancellation.LateStartsBounded` | controller/channel-test.go:1025-1075 | so at most workerCount more runs start and at most one more report is made |
| `PoolCancellation.RunStartsAfterCancel` | controller/channel-test.go:1025-1032 | a schedule in which a run starts after the cancellation, for every list whose first entry is runnable |
| `Delimited.TrimMeaning` | model/channel.go:216-230 | trimming gives a slice that neither begins nor ends with a cut character |
| `Delimited.TrimExactly` | model/channel.go:216-230 | what trimming takes off at either end is cut characters only |
| `Delimited.SpaceCharacters` | model/channel.go:216-217 | white space, by code point |
| `Delimited.StoreRoundTrip` | model/channel.go:229-230 | a list survives join, trim and split if and only if it is storable (no separator inside, ends not blank) |
| `Delimited.SplitJoin` | model/channel.go:384-384 | splitting a join gives the parts back when none contains the separator |
| `Delimited.JoinSplit` | model/channel.go:384-384 | joining a split gives the text back |
| `Delimited.SplitConcat` | model/channel.go:384-384 | a separator splits a text into the parts of its two sides |
| `Delimited.JoinConcat` | model/channel.go:384-384 | a join of two lists is their joins with one separator between |
| `Delimited.FreshMeaning` | controller/channel.go:1947-1993 | the selected keys are the requested ones not already there, each once |
| `Delimited.CleanedMeaning` | controller/channel.go:1947-1993 | a cleaned list holds exactly the trimmed entries that are not blank |
| `Delimited.CleanedConcat` | controller/channel.go:1947-1993 | cleaning goes entry by entry, in order |
| `Delimited.FreshConcat` | controller/channel.go:1947-1993 | selecting new keys goes entry by entry; what was selected counts as there |
| `Delimited.Clean` | controller/channel.go:1947-1993 | the loop keeps exactly the trimmed, non-blank requested keys in order |
| `Delimited.SelectFresh` | controller/channel.go:1947-1993 | the loop with a seen-set selects the first occurrences of new keys |
| `MultiKey.KeptInOrder` | controller/channel.go:1867-1945 | the survivors of a delete are exactly the positions not dropped, in their old order |
| `MultiKey.ReindexMeaning` | controller/channel.go:1895-1920 | position j of a re-indexed map holds what position idx[j] held, and nothing else |
| `MultiKey.Channel.SetStatus` | controller/channel.go:1711-1794 | disable_key and enable_key: out-of-range indexes refused, otherwise exactly that key's entries change |
| `MultiKey.Channel.EnableAll` | controller/channel.go:1796-1818 | all three maps are emptied |
| `MultiKey.Channel.DisableAll` | controller/channel.go:1820-1865 | every enabled key becomes manually disabled; refused if there is none |
| `MultiKey.CopySurvivors` | controller/channel.go:1867-2062 | the copying loop equals picking the survivors and re-indexing all three maps by them |
| `MultiKey.RemoveKeys` | controller/channel.go:1867-2062 | the row after either delete, or a refusal: no key left for delete_key, none dropped for delete_disabled_keys |
| `MultiKey.Channel.Delete` | controller/channel.go:1867-2062 | both delete actions: refusals, the joined survivors, their count and the re-indexed maps |
| `MultiKey.Channel.Add` | controller/channel.go:1947-1993 | appends the cleaned, deduplicated new keys; refused if none is new |
| `MultiKey.Store.Manage` | controller/channel.go:1587-1599 | the locked part of a request: with a successful re-read and write the stored row becomes the served one, whatever the snapshot |
| `MultiKeyLaws.ReadBackExactly` | model/channel.go:209-231 | a list stored one key per line is the list that is read if and only if JSON decoding yields it or, without JSON, it is storable |
| `MultiKeyLaws.PlainRoundTrip` | model/channel.go:209-231 | plain keys read back, with their count |
| `MultiKeyLaws.CountMatchesKeys` | model/channel.go:664-692 | the count a write records equals the keys a read yields if and only if the text is no empty JSON array |
| `MultiKeyLaws.ConsistentExactly` | controller/channel.go:1711-2062 | for every consistent row and every action: size = number of keys and all three map domains inside it hold afterwards if and only if the stored text is no empty JSON array and no time or reason ends up at or past the number of keys it is counted as |
| `MultiKeyLaws.DeleteConsistent` | controller/channel.go:1867-2062 | for a delete: if and only if no survivor with a carried time or reason gets an index at or past the count of the rest |
| `MultiKeyLaws.AddConsistent` | controller/channel.go:1947-1993 | for an addition: if and only if no time or reason lies at or past the count of the extended list |
| `MultiKeyLaws.ServeKeepsConsistent` | controller/channel.go:1711-2062 | in particular if a rewritten list reads back and an unchanged text is no empty JSON array |
| `MultiKeyLaws.NewlineStaysConsistent` | controller/channel.go:1947-1993 | reading back is not necessary: an added key with a newline inside leaves a consistent row |
| `MultiKeyLaws.StatusKeepsConsistent` | controller/channel.go:1711-1865 | for the status actions that condition is exact |
| `MultiKeyLaws.DeleteExactly` | controller/channel.go:1867-2062 | for every consistent row: after a delete exactly the other keys are read if and only if their list reads back |
| `MultiKeyLaws.SurvivorsInOrder` | controller/channel.go:1867-2062 | the survivors are exactly the keys not dropped, in order |
| `MultiKeyLaws.DeleteFollowsKeys` | controller/channel.go:1867-2062 | if the list reads back, the row is consistent and each surviving key shows the status, time and reason it showed at its old index |
| `MultiKeyLaws.DeleteDisabledEdits` | controller/channel.go:1995-2062 | delete_disabled_keys is refused if and only if no key is auto-disabled |
| `MultiKeyLaws.DeleteDisabledExact` | controller/channel.go:1995-2062 | it leaves exactly the other keys if and only if these read back; if all keys are auto-disabled, all stay and become enabled |
| `MultiKeyLaws.BlankKeyBreaksDelete` | controller/channel.go:1867-1945 | a stored row with a blank key on which delete_key breaks the invariant and loses a status |
| `MultiKeyLaws.AddAppends` | controller/channel.go:1947-1993 | for every consistent row the old keys followed by the new ones are read if and only if that list reads back (or none is new); then the new keys are enabled and every existing key is shown as before |
| `MultiKeyLaws.StatusActions` | controller/channel.go:1711-1865 | the status actions change no key and exactly the named statuses |
| `MultiKeyLaws.NewlineBypassesDedup` | controller/channel.go:1947-1993 | a requested key with a newline is stored as two unchecked keys |
| `MultiKeyMeaning.KeysOfMeaning` | model/channel.go:209-231 | the key list and its count for every text: blank, JSON, empty JSON, lines |
| `MultiKeyMeaning.ViewMeaning` | controller/channel.go:1618-1650 | what get_key_status shows of a key, with 1 for enabled |
| `MultiKeyMeaning.RefusedExactly` | controller/channel.go:1711-2062 | when each action is turned away unwritten, exactly |
| `MultiKeyMeaning.WrittenMeaning` | model/channel.go:664-705 | what a write stores: text, count, and the statuses below the count, times and reasons untouched |
| `MultiKeyMeaning.EnableKeyEntries` | controller/channel.go:1754-1794 | enable_key drops that key from all three maps and changes no other entry |
| `MultiKeyMeaning.DisableKeyEntries` | controller/channel.go:1711-1752 | disable_key sets that status to 2; all other statuses, all times and all reasons stay |
| `MultiKeyMeaning.DisableAllEntries` | controller/channel.go:1820-1865 | disable_all_keys sets every enabled key to 2; the other statuses, all times and all reasons stay |
| `MultiKeyMeaning.StatusViews` | controller/channel.go:1711-1865 | the full view (status, time, reason) of every position after each status action |
| `MultiKeyMeaning.SurvivorsMeaning` | controller/channel.go:1867-2062 | the survivors: every other position, or every position whose status is not 3, ascending |
| `MultiKeyMeaning.DeletedEntries` | controller/channel.go:1867-2062 | every entry of all three maps after a delete, by old position |
| `MultiKeyMeaning.DeletedText` | controller/channel.go:1867-2062 | the text and the count after a delete are those of the survivors' keys |
| `MultiKeyMeaning.AddedEntries` | controller/channel.go:1947-1993 | add_keys appends exactly the trimmed, non-blank, not yet present requested keys, each once, and touches no map |
| `MultiKeyProtocol.StepInv` | controller/channel.go:1585-1597 | every step of any request keeps: the stored row is the serial result of the requests already through the lock |
| `MultiKeyProtocol.Linearizable` | controller/channel.go:1552-1597 | for every schedule with successful re-reads, whenever the lock is free the row is the serial outcome in lock order, independent of the pre-lock snapshots |
| `MultiKeyProtocol.SerialConsistentExactly` | controller/channel.go:1711-2062 | served one after another, all rows are consistent if and only if every request meets that condition on the row it finds or its write fails |
| `MultiKeyProtocol.ScheduleKeepsConsistent` | controller/channel.go:1585-1597 | in every schedule, whenever the lock is free, the row is a multi-key row, consistent if every request so far met the condition |
| `MultiKeyProtocol.NoDeadlock` | controller/channel.go:1585-1588 | in every state of the lock discipline, unless every request is done or refused, one can move |
| `MultiKeyProtocol.Termination` | controller/channel.go:1552-1599 | at most five steps per request, and a schedule that cannot be extended has ended every request and freed the lock, whatever reads and writes failed |
| `MultiKeyProtocol.SerialUnion` | controller/channel.go:1947-1993 | serial additions whose lists read back end with the old keys followed by exactly the new ones requested, each once |
| `MultiKeyProtocol.AppendableStages` | controller/channel.go:1947-1993 | if whatever is appended from the requested keys reads back, every stage of every order does |
| `MultiKeyProtocol.PlainAppendable` | controller/channel.go:1947-1993 | plain keys can be appended to plain keys |
| `MultiKeyProtocol.ConcurrentAddsKeepUnion` | controller/channel.go:1590-1597 | any number of concurrent add_keys requests end with the old keys followed by exactly the new ones requested, each once, if these can be appended |
| `MultiKeyProtocol.LostUpdateWithoutReread` | controller/channel.go:1590-1597 | without the re-read an added key is lost |
| `DiskCache.TotalSize` | common/disk_cache.go:165-176 | the scan loop adds up the sizes of the listed files |
| `DiskCache.Cache.IncrementDiskFiles` | common/disk_cache_config.go:110-113 | one more file, so many more bytes, nothing else |
| `DiskCache.Cache.DecrementDiskFiles` | common/disk_cache_config.go:116-123 | both counters drop and are clamped at zero |
| `DiskCache.Cache.IncrementMemoryBuffers` | common/disk_cache_config.go:126-129 | one more buffer, so many more bytes |
| `DiskCache.Cache.DecrementMemoryBuffers` | common/disk_cache_config.go:132-135 | one buffer and its bytes fewer |
| `DiskCache.Cache.EnforceCapacity` | common/disk_cache.go:145-200 | the eviction loop removes exactly the victims the specification names, with their counts, and returns their number |
| `DiskCache.Cache.CleanupOldFiles` | common/disk_cache.go:110-139 | the cleaning loop removes exactly the expired files that can be removed, with their counts |
| `DiskCache.Cache.SyncStats` | common/disk_cache_config.go:161-168 | the counters become those of the listing, or stay if it cannot be read |
| `DiskCache.Cache.ResetUsage` | common/disk_cache_config.go:154-157 | both disk counters become zero |
| `DiskCache.Cache.EnsureSpace` | common/disk_cache_config.go:190-204 | the answer and the directory after making room, for every branch |
| `DiskCacheLaws.RemovedAllMeaning` | common/disk_cache.go:193-197 | removing files takes their bytes off the disk and, down to zero, off the counters |
| `DiskCacheLaws.VictimsDescribed` | common/disk_cache.go:186-198 | whatever fails to be removed, only existing files outside the safe window are evicted, each once |
| `DiskCacheLaws.CleanedExactly` | common/disk_cache.go:122-137 | age cleaning removes a file if and only if it is older than the limit and can be removed |
| `DiskCacheLaws.EvictsShortestPrefix` | common/disk_cache.go:182-198 | with successful deletes: exactly the shortest oldest-first prefix that makes total + reserve fit, none inside the window, stopping when it fits or only in-window files are left |
| `DiskCacheLaws.EvictsExactly` | common/disk_cache.go:145-201 | with files that refuse to go: it walks the k oldest files outside the window while too much is left, removes the removable ones and passes over the others |
| `DiskCacheLaws.UnreadableUnchanged` | common/disk_cache.go:110-201 | nothing changes when the directory cannot be read, nor by eviction without a cap |
| `DiskCacheLaws.EvictionLeaves` | common/disk_cache.go:186-192 | every recent file survives unchanged, and either the rest fits or exactly the recent files are left |
| `DiskCacheLaws.RoomKeeps` | common/disk_cache_config.go:190-204 | making room only removes files, and the counters stay at or below the disk, exact if they were |
| `DiskCacheLaws.RoomWheneverStaleSuffices` | common/disk_cache_config.go:190-204 | with counter <= disk, the answer is yes whenever dropping the stale files is enough, and yes implies counter + request <= cap |
| `DiskCacheLaws.RoomExactlyWhenStaleSuffices` | common/disk_cache_config.go:190-204 | with an exact counter, yes if and only if the recent files leave room |
| `BodySpec.ReadsAreConsecutive` | common/body_storage.go:62-69 | successive reads deliver the stored bytes in order without gap or repetition up to the end |
| `BodySpec.ReadExactly` | common/body_storage.go:62-69 | a read gives the next bytes, up to the buffer, or the end of the data exactly there |
| `BodySpec.SeekExactly` | common/body_storage.go:71-78 | the three kinds of seek; before the start it is refused and nothing moves |
| `BodySpec.ReadersAreIndependent` | common/body_storage.go:23-29 | in any run, closing included, a reader gets the replies it would get alone |
| `BodySpec.ReadersLeaveStorageAlone` | common/body_storage.go:23-29 | opening and using readers never moves the storage's cursor nor closes it |
| `BodySpec.ContentsAndClosing` | common/body_storage.go:80-87 | the contents never change and the storage is closed exactly from its first Close on |
| `BodySpec.OpenStorageGivesEverything` | common/body_storage.go:89-108 | before a Close, Bytes gives the whole contents without moving the cursor, and a new reader starts at their beginning |
| `BodySpec.ClosedStorageRefuses` | common/body_storage.go:23-29 | after a Close every operation but Close is refused |
| `BodyStorage.FileHandle.ReadFull` | common/body_storage.go:244-249 | the reading loop gives exactly the requested bytes when the file has them |
| `BodyStorage.MemoryStorage.constructor` | common/body_storage.go:52-60 | open, rewound, holding the data, counted once |
| `BodyStorage.MemoryStorage.Read` | common/body_storage.go:62-69 | the abstract object's read |
| `BodyStorage.MemoryStorage.Seek` | common/body_storage.go:71-78 | the abstract object's seek; a negative target is refused and the cursor stays |
| `BodyStorage.MemoryStorage.GetBytes` | common/body_storage.go:89-96 | the whole contents, cursor untouched |
| `BodyStorage.MemoryStorage.NewReader` | common/body_storage.go:98-108 | a new reader at the start, unless closed |
| `BodyStorage.MemoryStorage.Close` | common/body_storage.go:80-87 | takes effect and decrements once |
| `BodyStorage.DiskStorage.constructor` | common/body_storage.go:152-156 | open and rewound over the file just written |
| `BodyStorage.DiskStorage.Read` | common/body_storage.go:196-203 | the abstract object's read for a non-empty buffer; an empty one yields nothing |
| `BodyStorage.DiskStorage.Seek` | common/body_storage.go:205-212 | the abstract object's seek |
| `BodyStorage.DiskStorage.GetBytes` | common/body_storage.go:225-257 | the whole contents, and the shared cursor is restored |
| `BodyStorage.DiskStorage.NewReader` | common/body_storage.go:259-275 | an independent descriptor at the start, unless closed; fails exactly when the file has been evicted |
| `BodyStorage.DiskStorage.Close` | common/body_storage.go:214-223 | takes effect once: the file goes and the counters drop, also if the removal fails |
| `BodyRefinement.DriveMemory` | common/body_storage.go:62-108 | any sequence of operations on a memory storage and its readers gets the abstract object's replies; the counters drop once |
| `BodyRefinement.DriveDisk` | common/body_storage.go:196-275 | the same for a disk storage whose file is not evicted, for non-empty buffers |
| `BodyRefinement.DriveBoth` | common/body_storage.go:13-30 | two storages holding the same bytes cannot be told apart by any sequence of operations |
| `BodyRefinement.EmptyBufferDiffers` | common/body_storage.go:196-203 | an empty buffer is answered alike if and only if the storage is closed or the cursor is before the end |
| `BodyCreation.Create` | common/body_storage.go:290-310 | the storage delivered, the directory and the counters are those of the specification, for every branch and failure |
| `BodyCreation.Spill` | common/body_storage.go:371-416 | the same for the spill path, with the hit counter |
| `BodyCreation.CreateFromReader` | common/body_storage.go:314-363 | the same for all paths from a reader, with both hit counters |
| `BodyCreation.CopyToDisk` | common/body_storage.go:159-194 | the file kept holds prefix and rest; broken, unwritable or oversized streams are abandoned |
| `BodyCreation.AcceptsExactly` | common/body_storage.go:314-416 | without I/O and capacity failure and for any announced length, a stream is accepted if and only if its length is within the limit (on the spill path: within the larger of limit and threshold), and then all its bytes are held |
| `BodyCreation.PathsAgree` | common/body_storage.go:314-416 | with threshold <= limit all paths accept the same streams |
| `BodyCreation.NeverTruncated` | common/body_storage.go:314-416 | under any failure, what is accepted is the whole stream |
| `BodyOutcomes.CreatedExactly` | common/body_storage.go:315-420 | the answer and the disk afterwards for every stream, announced length, limit, threshold and failure, by comparing lengths |
| `BodyOutcomes.BytesExactly` | common/body_storage.go:290-311 | the same for a body given as bytes |
| `BodyOutcomes.DisabledKeepsInMemory` | common/body_storage.go:290-311 | with the cache disabled an unbroken body within the limit is kept in memory, whole, and the disk is untouched |
| `BodyOutcomes.NoSpaceExactly` | common/body_storage.go:290-420 | refused for lack of space if and only if the body is to go to disk, the cache is enabled and capped, and the usage left after eviction plus the bytes asked for exceeds the cap |
| `BodyOutcomes.InMemoryExactly` | common/body_storage.go:290-420 | an accepted body is in memory if and only if the cache is disabled, or it is at most the threshold with no length announced, or below it with a length below it announced |
| `BodyOutcomes.SpaceWithoutEviction` | common/disk_cache_config.go:190-204 | when making room evicts nothing, and its answer then |
| `CacheRuns.FreshInv` | common/disk_cache_config.go:92-92 | a process that starts with zero counters over any directory satisfies the invariant, exactly counted if the directory holds no bytes |
| `CacheRuns.CreationShape` | common/body_storage.go:290-416 | every creation evicts at most for its reservation and then adds nothing, one counted file if there was room, or one uncounted leftover |
| `CacheRuns.DiscardedKeeps` | common/body_storage.go:217-221 | giving up a file keeps the counters at or below the disk, and exact unless bytes are subtracted for a file that stays or is gone |
| `CacheRuns.SyncedExact` | common/disk_cache_config.go:161-168 | a sync over a readable directory makes both counters exact |
| `CacheRuns.StepKeeps` | common/disk_cache_config.go:110-168 | every step keeps 0 <= counters <= reality; an exact usage stays exact if and only if the step is not a drifting one |
| `CacheRuns.CountersTrack` | common/disk_cache_config.go:110-168 | over every run from any start: 0 <= usage <= bytes on disk, 0 <= files <= files on disk, memory counters = count and total of open memory storages |
| `CacheRuns.ExactWithoutDrift` | common/disk_cache_config.go:110-168 | over every run without a drifting step the usage equals the bytes on disk |
| `CacheFiles.StepCountsFiles` | common/disk_cache_config.go:110-170 | exactly which steps make an exact file counter inexact |
| `CacheFiles.FilesCounted` | common/disk_cache_config.go:110-170 | over every run without such a step the file counter is the number of files |
| `CacheBound.WritesWithinSlack` | common/body_storage.go:371-416 | an accepted file exceeds its reservation by at most the slack |
| `CacheBound.SyncKeepsBound` | common/disk_cache_config.go:161-168 | a sync keeps a bound if and only if the bytes on disk are within it |
| `CacheBound.UsageBounded` | common/body_storage.go:290-416 | along every run of serialized creations usage <= M + max(0, B-T-1) for honest lengths, M + max(0, B - max(1,T)) otherwise, if and only if no sync finds more than that on disk |
| `CacheBound.UsageBoundedWithoutDrift` | common/body_storage.go:290-416 | without drifting steps the bound holds for usage and for the bytes on disk, syncs included |
| `CacheBound.SpillReachesBound` | common/body_storage.go:381-415 | the bound is attained by a spilled body of the full limit |
| `CacheBound.ShortAnnouncementReachesBound` | common/body_storage.go:318-336 | the bound for wrong lengths is attained by a body of the full limit announced as the threshold |
| `CacheBound.SyncAfterDriftExceedsBound` | common/disk_cache_config.go:154-168 | reset, another body, sync: twice the cap is counted |
| `ModelNames.MergeNames` | controller/channel_upstream_update.go:107-121 | the merging loop appends the new names |
| `ModelNames.NormalizeTidy` | controller/channel_upstream_update.go:100-105 | normalized lists have trimmed, non-blank, distinct entries and denote the same set |
| `ModelNames.NormalizeFixed` | controller/channel_upstream_update.go:100-105 | tidy lists are fixed points of normalization |
| `ModelNames.MergeSets` | controller/channel_upstream_update.go:107-121 | merge is union, tidy |
| `UpstreamMeaning.MergeIsNormalize` | controller/channel_upstream_update.go:107-121 | merging is normalizing the first list followed by the second |
| `UpstreamMeaning.PickConcat` | controller/channel_upstream_update.go:123-143 | intersection and subtraction go name by name, in order |
| `ModelNames.SubtractSets` | controller/channel_upstream_update.go:123-132 | subtract is difference, tidy |
| `ModelNames.IntersectSets` | controller/channel_upstream_update.go:134-143 | intersect is intersection, tidy |
| `ModelNames.ApplySelectedSets` | controller/channel_upstream_update.go:145-150 | the selection denotes (origin + add) - (remove - add): add wins |
| `UpstreamModels.PlanCheck` | controller/channel_upstream_update.go:530-546 | auto-sync or plain detection: the settings and models to be written and exactly how many models are new |
| `UpstreamModels.PlanApply` | controller/channel_upstream_update.go:970-994 | the four lists and the models to be written for any selection |
| `UpstreamModels.Channel.Check` | controller/channel_upstream_update.go:512-559 | too-soon, failed fetch, auto-sync and plain detection, with the write succeeding or failing: the stored channel and all three results |
| `UpstreamModels.Channel.Apply` | controller/channel_upstream_update.go:957-1005 | the stored channel after any selection; a failed write changes nothing |
| `UpstreamLaws.DetectedAdds` | controller/channel_upstream_update.go:213-227 | the detected additions denote upstream minus covered minus ignored |
| `UpstreamLaws.DetectedRemoves` | controller/channel_upstream_update.go:228-237 | the detected removals denote local minus upstream minus aliases |
| `UpstreamMeaning.AddsExactly` | controller/channel_upstream_update.go:206-227 | a name is proposed for addition if and only if it is offered upstream, not local, no redirect target, and covered by no ignore entry (the name itself, or a matching pattern behind "regex:") |
| `UpstreamMeaning.RemovesExactly` | controller/channel_upstream_update.go:228-237 | a name is proposed for removal if and only if it is local, no redirect source, and not offered upstream |
| `UpstreamMeaning.DetectedInOrder` | controller/channel_upstream_update.go:213-237 | additions come in upstream order, removals in local order |
| `UpstreamMeaning.CheckExactly` | controller/channel_upstream_update.go:512-559 | when a check changes nothing, only the time, or what is pending; the models change only if auto-sync is allowed, switched on and finds something, which is appended and counted |
| `UpstreamLaws.StoredNames` | model/channel.go:380-385 | a stored list is read back as the comma-separated pieces of its names |
| `UpstreamLaws.DetectionIsDisjoint` | controller/channel_upstream_update.go:179-238 | nothing is detected both to add and to remove |
| `UpstreamLaws.AppliedSets` | controller/channel_upstream_update.go:957-1005 | one application, with any names, as an operation on four sets; added names are stored as text |
| `UpstreamMeaning.AppliedExactly` | controller/channel_upstream_update.go:957-1005 | name by name: what stays pending both ways and what is ignored after an application |
| `UpstreamMeaning.AppliedModelsExactly` | controller/channel_upstream_update.go:957-1005 | name by name: what is a model after an application |
| `UpstreamLaws.AddWins` | controller/channel_upstream_update.go:970-992 | an added name is never ignored or removed in the same call, and it is a model if and only if it has no comma; its pieces always are |
| `UpstreamBatches.BatchingExactly` | controller/channel_upstream_update.go:957-1005 | any split of a selection over any number of calls reaches the same four sets as one call if and only if no batch removes a piece of a name that an earlier one added and none adds again, given that no model is ignored in one batch and added in another and none is pending twice |
| `UpstreamBatches.BatchingIsIrrelevant` | controller/channel_upstream_update.go:957-1005 | in particular when no added name contains a comma |
| `UpstreamBatches.AddThenRemoveExactly` | controller/channel_upstream_update.go:957-1005 | adding first and removing later differs from one call exactly if a piece of an added name is removed |
| `UpstreamBatches.CommaBatchesDiffer` | controller/channel_upstream_update.go:957-1005 | a real detection on which it differs |
| `UpstreamBatches.BothPendingDiffers` | controller/channel_upstream_update.go:957-1005 | a name pending both ways is kept by one call and lost by two |
| `UpstreamLaws.ConvergesExactly` | controller/channel_upstream_update.go:179-238 | detect, apply all, detect again reports nothing if and only if no name to add has a comma and no ignored upstream name loses its last ignore entry to the additions |
| `UpstreamLaws.Converges` | controller/channel_upstream_update.go:179-238 | in particular when no upstream name has a comma or begins with "regex:" |
| `UpstreamLaws.PatternDoesNotConverge` | controller/channel_upstream_update.go:217-224 | an upstream model named like the ignore pattern that covers another one: adding the first makes the second pending |
| `UpstreamLaws.CommaStaysPending` | controller/channel_upstream_update.go:957-1005 | an added name with a comma is pending again |
| `UpstreamLaws.AutoSyncLeaves` | controller/channel_upstream_update.go:530-545 | after an auto-syncing check exactly the found names with a comma are still to be added |
| `UpstreamLaws.AutoSyncSettles` | controller/channel_upstream_update.go:530-545 | so nothing is left if and only if no name it found contains a comma |
| `RateLimit.Limiter.Request` | common/rate-limit.go:57-88 | the queue of the key and the answer; other keys untouched |
| `RateLimit.Limiter.Refund` | common/rate-limit.go:92-100 | the newest entry of the key goes; other keys untouched |
| `RateLimit.Limiter.ClearExpired` | common/rate-limit.go:28-42 | each queue is dropped or kept by its newest entry's age |
| `RateLimit.RunInv` | common/rate-limit.go:28-100 | over every run the queue is the end of the log and the rest of the log is out of the window |
| `RateLimit.AdmitsExactly` | common/rate-limit.go:57-88 | a request is admitted if and only if fewer than max live admissions are younger than duration |
| `RateLimit.NeverTooMany` | common/rate-limit.go:57-88 | no half-open window of the duration ever holds more than max live admissions |
| `RateLimit.RefundCancelsNewest` | common/rate-limit.go:92-100 | a refund on a non-empty queue cancels the newest live admission, any other changes nothing |
| `RateLimit.EagerCleanerAdmitsTooMany` | common/rate-limit.go:28-42 | with a shorter expiry a burst, a sweep and one more request break the limit |
| `RateLimit.CleanerCondition` | common/rate-limit.go:28-42 | the refinement holds for all runs if and only if expiry + 1 >= duration |
| `Verification.Codes.Register` | common/verification.go:64-84 | where a code is stored for each way the Redis call can end |
| `Verification.Codes.Consume` | common/verification.go:129-163 | the answer and both stores for each way the Redis call can end |
| `Verification.Codes.Verify` | common/verification.go:100-127 | the answer; nothing changes |
| `Verification.Codes.Delete` | common/verification.go:165-179 | with Redis only Redis is touched, otherwise memory |
| `Verification.Codes.RemoveExpiredPairs` | common/verification.go:181-188 | the sweep keeps exactly the unexpired codes |
| `Verification.Conservation` | common/verification.go:64-163 | over every run: consumed + still waiting <= registered + copies from lost replies |
| `Verification.ConsumedAtMostRegistered` | common/verification.go:129-163 | if failed calls have no effect, a code is consumed at most as often as it was registered |
| `Verification.LostReplyConsumedTwice` | common/verification.go:64-84 | a lost reply lets one registration be consumed twice |
| `Verification.MismatchStopsAtRedis` | common/verification.go:28-36 | a code held by an answering Redis makes every other code fail without reaching memory |
| `Verification.VerifyPredictsConsume` | common/verification.go:100-163 | looking predicts consuming; a success uses up one copy, and a failure changes nothing unless the reply was lost |
| `VerificationRuns.AnsweredIsAccepted` | common/verification.go:64-71 | after a registration that Redis carried out, and any events that do not use, delete, replace or expire it (wrong guesses allowed), Redis accepts that code and no other |
| `VerificationRuns.FallbackIsAccepted` | common/verification.go:75-84 | after a registration that Redis did not answer, a request that finds nothing in Redis accepts that code and no other if and only if fewer than minutes * 60 seconds have passed, whatever sweeps came between |
| `VerificationRuns.ExpiredExactly` | common/verification.go:122-124 | expiry in nanoseconds, with whole seconds truncated toward zero |
| `VerificationRuns.GoneStaysGone` | common/verification.go:100-163 | a name in neither store is refused until it is registered again |
| `VerificationRuns.ConsumedFrom` | common/verification.go:129-163 | which copies a consumption takes, for each way the Redis call can end |
| `VerificationRuns.DeletedExactly` | common/verification.go:165-179 | what is still accepted after a deletion, for each way its Redis call can end |
| `VerificationRuns.DeletedButAccepted` | common/verification.go:165-179 | a code kept in memory survives a deletion that Redis answers |
| `VerificationRuns.OthersUntouched` | common/verification.go:75-84 | an event leaves every other name alone, but for the expired ones swept when more than ten are held |
| `SecretMask.MaskKey` | common/secret_mask.go:41-51 | the fingerprint's length (0, 8 or 12), and no result for one to three bytes |
| `SecretMask.MaskKeyReveals` | common/secret_mask.go:41-51 | two fingerprints agree if and only if the last four characters do and, from length 12 on, the first four: nothing else shows |
| `SecretMask.FingerprintExactly` | common/secret_mask.go:41-51 | the last four characters behind four asterisks, and from length 12 on the first four in front |
| `SecretMask.SecretExactly` | common/secret_mask.go:33-79 | a secret starts where "sk-" or "AIza" does, with twenty characters and none of the thirteen terminators among them |
| `SecretMask.RunExactly` | common/secret_mask.go:53-79 | a token run is the longest stretch free of terminators |
| `SecretMask.MatchPrefix` | common/secret_mask.go:66-75 | the prefix loop finds the longest known prefix at the position |
| `SecretMask.Advance` | common/secret_mask.go:66-93 | one turn of the scan |
| `SecretMask.MaskMessage` | common/secret_mask.go:63-96 | the scanning loop computes the mask function |
| `SecretMask.MaskIsSafe` | common/secret_mask.go:63-96 | no position of the output starts a known prefix with a token run of 20 or more |
| `SecretMask.MaskIdempotent` | common/secret_mask.go:63-96 | masking twice equals masking once |
| `SecretMask.MaskFixedIffSafe` | common/secret_mask.go:63-96 | a message is unchanged if and only if it holds no secret |
| `SecretMask.MaskNeverLonger` | common/secret_mask.go:63-96 | the output is never longer |
| `SecretMask.MaskRewritesSecretsOnly` | common/secret_mask.go:63-96 | the message is tiled by whole secrets and other text; only secrets are replaced, by their fingerprint |
| `Metrics.LabelKey` | common/metrics.go:30-50 | visiting the labels in any order gives a key spelling them in increasing order of names |
| `Metrics.LessExactly` | common/metrics.go:30-50 | the order of names: by the first place where they differ, a proper prefix first |
| `Metrics.LabelKeyIsUnique` | common/metrics.go:30-50 | labels have one key: map order plays no part |
| `Metrics.LabelKeyInjective` | common/metrics.go:30-50 | distinct labels without '=' in names and ',' in values have distinct keys |
| `Metrics.EqualsCollision` | common/metrics.go:30-50 | with '=' in a name two label sets share a key |
| `Metrics.CommaCollision` | common/metrics.go:30-50 | with a comma in a value two label sets share a key |
| `Counters.Registry.Inc` | common/metrics.go:81-102 | the whole table after an increment |
| `Counters.SeriesExactly` | common/metrics.go:81-102 | an increment adds its delta to its own series, or to the unlabelled overflow once 2000 others exist, and to no other |
| `Counters.SeriesAllOrNothing` | common/metrics.go:81-102 | over every run a series of an ordinary metric counts all that was added to it, or nothing because the metric was full |
| `Counters.SeriesBounded` | common/metrics.go:81-102 | over every run no metric holds more than 2001 series, 2000 without the unlabelled one |
| `Counters.ExceedsExactly` | common/metrics.go:81-102 | a metric exceeds 2000 series if and only if at some point an increment spilled over into it while it held 2000 and no unlabelled one |
| `Counters.OverflowMetricExceedsCap` | common/metrics.go:81-102 | for every metric a run giving its overflow metric 2001 series |
| `Counters.AtMostMaxSeries` | common/metrics.go:81-102 | at most 2000 if no overflow name is incremented directly |
| `Counters.CountsConserved` | common/metrics.go:81-102 | all series plus the overflow add up to the deltas applied |
| `Histogram.Search` | common/metrics.go:107-119 | binary search finds the first bound not below the value |
| `Histogram.Histograms.Observe` | common/metrics.go:107-119 | the histogram after an observation; others untouched |
| `Histogram.BucketsAreCumulative` | common/metrics.go:107-119 | each bucket is the number of observations up to its bound; sum and count agree |
| `Histogram.EachNameOnItsOwn` | common/metrics.go:107-119 | over every run each name has a histogram of exactly its own observations |
| `OggScan.SumTable` | common/audio.go:230-245 | the segment loop adds up the table |
| `OggScan.OpusDuration` | common/audio.go:196-254 | ends on every byte sequence with the greatest granule position found over 48000 |
| `OggScan.ScanFindsAllPages` | common/audio.go:196-254 | on concatenated well-formed pages, junk in front allowed, exactly those pages are visited and the maximum of 0 and their signed granule positions is found |
| `OggScan.CaptureExactly` | common/audio.go:219-226 | a page is taken to begin exactly where the four bytes of "OggS" are |
| `OggScan.GranuleExactly` | common/audio.go:228-229 | a granule position is eight bytes, least significant first, in two's complement |
| `OggScan.CutOffFile` | common/audio.go:196-254 | a file cut off inside a page yields the maximum over the whole pages and, if its 27-byte header is there, that page |
| `OggScan.OffsetsMeaning` | common/audio.go:196-254 | page k of a concatenation begins behind the k pages before it |
| `OggScan.MaxGranuleIsMax` | common/audio.go:228-232 | that value is an upper bound and is attained |
| `QuotaMath.RoundNearest` | common/quota_math.go:140-142 | rounding errs by at most a half, ties away from zero, and keeps order |
| `QuotaMath.QuotaRoundMeaning` | common/quota_math.go:140-142 | the rounded value forced into 32 bits, marked exactly when forced |
| `QuotaMath.SaturateInRange` | common/quota_math.go:86-100 | every conversion lands in range, and truncation goes toward zero by less than one |
| `QuotaMath.SpecialValues` | common/quota_math.go:86-100 | not a number becomes 0, the infinities the ends of the range, each marked as such |
| `QuotaMath.WalletExactOrFails` | common/quota_math.go:172-175 | exactly the half-away rounded decimal, or failure, exactly when its magnitude exceeds 2^53 - 1 |
| `QuotaMath.SettleByPriceClose` | controller/channel-test.go:580-581 | a flat price is charged truncated, at most 2^31 - 1 |
| `QuotaMath.SettleExactly` | controller/channel-test.go:569-578 | the charge, clamping included: round the completion share, add the prompt, round the product, then at least one if the ratio is not zero |
| `QuotaMath.PricedCostsAtLeastOne` | controller/channel-test.go:569-578 | a priced model never costs less than one unit; one with ratio zero costs nothing |
| `QuotaMath.SettleMonotone` | controller/channel-test.go:569-578 | more tokens never cost less |
| `QuotaMath.SettleClose` | controller/channel-test.go:569-578 | unclamped, the charge is within modelRatio/2 + 1 of (prompt + completion*completionRatio)*modelRatio |

## Left out

- HTTP handlers, JSON binding, audit records, permissions, i18n, e-mail, OAuth, cryptography: thin wrappers or facts about other libraries.
- `TestChannelKeys`: a semaphore and a results slice whose safety is a simpler instance of the worker pool.
- Pagination, filtering and counting of `get_key_status`; only what it shows of one key is modelled.
- `UpdateChannel` appends keys without the multi-key lock and is outside the linearizability claim; so is the cached `Keys` slice of a channel.
- Database: a write is one atomic step, and a struct update that skips blank fields is taken as given; JSON decoding of key texts is a parameter.
- Ability updates after a change of models are not modelled.
- Regular-expression matching of ignore entries is a parameter.
- Disk cache: directory entries that are directories or cannot be inspected, configuration changes during a run, `WriteDiskCacheFile` users that bypass the counters, the check-then-create race of concurrent creations, and the window between an atomic decrement and its clamp.
- Names of cache files are assumed unused (the program takes them from a random identifier and the clock).
- Body storage: read errors of an open descriptor, sharing of the slice returned by `Bytes`, closing a reader obtained from `NewReader` (reading it afterwards still works in memory and fails on disk), whence values other than the three standard ones.
- Sizes, counters, offsets and granule arithmetic are unbounded integers; 64-bit overflow is not modelled, nor is float64 rounding beyond the conversion facts named in `Float64Conversion`.
- RateLimit.Limiter.Request: requires max >= 1 or a queue that is not emptied, where the program would index out of range.
- The expiry time given to Redis is not modelled: a stored code may expire there at any moment, as an event.
- Disk cache thresholds and caps are given in bytes; the conversion from megabytes is not modelled.
- Verification.ConsumedAtMostRegistered: purposes are one-letter tags, like the two the program defines; purpose and key are stored as one name.
- Histogram observations are numbers; NaN is not modelled. Gauges and rendering are left out.
- Other audio formats, tiered settlement expressions and log building.
