# A verified model of the MCP server's runtime state

This Dafny project models the stateful core of the server: what happens when many tool calls, background
workers, start-ups and crashes share locks, ledgers, tables and files. `dafny verify dfyconfig.toml` checks
everything.

| module | models |
|---|---|
| `SingleFlight` | the reference-counted registry of per-task locks and the persistence body run under them, as objects and as a transition system over any number of interleaved, cancellable callers |
| `Budget` | the daily budget ledger, the billed call around it, and all interleavings of billed calls and prunes |
| `RateLimit` | the per-client token bucket of the HTTP middleware with lazy refill and eviction |
| `Timestamps` | the UTC timestamp texts the stores write, and their order |
| `ArtifactCache` | the task artifact cache: time to live, size eviction, prunes |
| `Ownership` | the task ownership table: migration with crash points, operations, and the claims of background tasks |
| `MediaPolicy` | the Base64 size preflight and the WAV chunk walk |
| `ArtifactFiles` | artifact files on disk, with a crash allowed between any two file steps |
| `Retry` | bounded retries, and which ModelArk failures are replayed and charged |
| `Limiters` | nested concurrency limits, and the accounting of a variation batch |
| `Prelude` | options, results and principals |

How the code is modelled. Classes with mutable fields are classes here, and each method's contract equates
the new state with a function of the old one; the properties are proved about those functions. Protocols are
state machines: `Step`, `Enabled`, `Apply`, and `Run` over a sequence of steps; a section of code without an
await, or a closure run under a store's lock, is one step. Clocks, random numbers, provider calls, cache
answers and I/O failures are arguments or nondeterministic steps. Money, time and tokens are exact.

What the proofs show about the code that its own documentation does not say:

- A connection that breaks after a ModelArk mutation was sent is reported as retryable and unambiguous: it is
  the one case in which a mutation that may have been carried out is sent again (`Retry.MutationReplayIsSafeExcept`).
- Over all exchanges of a retried mutation, `Retry.ReleasedThoughExecuted` says exactly when its reservation is
  released although it may have been carried out: such a connection on the way and a last exchange that does not
  charge, or a last exchange that may have been carried out and is a broken connection, an accepted request with
  an unusable body, a 5xx answer of which no error record can be made (a message that is not text, an undecodable
  body, a negative Retry-After), or an answer with a broken content encoding.
- A value just written to the artifact cache can be evicted by its own write, if enough other rows are stamped no
  earlier; `ArtifactCache.FreshRowAtRisk` says exactly when.
- A data file whose metadata was never written (a crash, or a failed metadata write) is unreachable, and no later
  put, sweep or crash ever removes it (`ArtifactFiles.OrphansStay`).
- In the migration a stranded legacy row replaces a row that the new table already has for the same task
  (`Ownership.MigrationKeepsRows`). One start-up alone cannot produce that state, because it migrates before it
  records anything; it takes a second process on the same database.
- An execution claim whose worker dies before it starts the handler is never started by a redelivery
  (`Ownership.ExecutionsStartOnce` counts these losses).
- The local principal passes the ownership check without a row. Together with a restart in remote mode this lets
  two principals both succeed on one task (`Ownership.LocalGapIsReal`); within one mode it cannot happen
  (`Ownership.OneModeOneOwner`).
- The WAV walk takes the byte rate from behind a `fmt ` chunk with fewer than 12 bytes of payload
  (`MediaPolicy.RateIsTheChunksOwn`, `MediaPolicy.ShortFormatMisleads`).
- A second clock reading inside the eviction lets a client gain at most the tokens of the time between the two
  readings (`RateLimit.TokenBucketBound`), and this is attained (`RateLimit.SkewIsAttained`).
- A batch whose coroutine was cancelled from outside cannot be summarised (`Limiters.Summarize`).
- Settling a reservation twice can break the daily limit: committing a released row keeps it only if the amount
  still fits (`Budget.CommitKeepsLimit`).

## Model

| member | source | states |
|---|---|---|
| SingleFlight.SingleFlightPerLifetime | src/ark_mcp/tools/vod_get_enhancement_task.py:153-216 | In every interleaving, with arbitrary cache behaviour and cancellation at every await, at most one copy succeeds per lifetime of a lock entry, and all callers that report `persisted` in it report the same artifact, the copied one if there was a copy |
| SingleFlight.RegistryIsExact | src/ark_mcp/runtime.py:187-212 | In every reachable state a task has an entry exactly when a caller is inside, all its callers are on that one entry, and `users` counts them |
| SingleFlight.ExclusionIsPerTask | src/ark_mcp/runtime.py:200-212 | At most one caller per task is in the critical section, and a waiter is held up exactly when a caller of its own task is in there |
| SingleFlight.RegistryDrainsWithCallers | src/ark_mcp/runtime.py:187-212 | The registry is empty exactly when nobody is between register and deregister |
| SingleFlight.EveryStateDrains | src/ark_mcp/runtime.py:187-212 | From every state that satisfies the invariant some schedule finishes all callers and empties the registry: nothing is ever stuck |
| SingleFlight.OneCopyPerTask | src/ark_mcp/tools/_vod_subtitle_shared.py:144-207 | With a cache that keeps its word and no caller lost between copy and cache write, a task is copied at most once over the whole run, across entry lifetimes |
| SingleFlight.StepKeepsInv | src/ark_mcp/runtime.py:187-212 | Every step of every caller keeps the registry, counting, linking, exclusion, slot and history invariants |
| SingleFlight.AdvanceIsLocal | src/ark_mcp/tools/vod_get_enhancement_task.py:161-209 | A caller's step changes only its own phase and entry, fills an empty shared slot only from inside the critical section, and never overwrites a filled one |
| SingleFlight.BodyStepsAgree | src/ark_mcp/tools/vod_get_enhancement_task.py:160-216 | The small steps of the interleaved body, taken in one go, compute what the sequential body computes |
| SingleFlight.PassIsContained | src/ark_mcp/tools/vod_get_enhancement_task.py:108-216 | An uninterrupted pass leaves the registry and other tasks' entries as they were, shares what it persisted, and yields a record the validator accepts exactly when there is a source address |
| SingleFlight.RecordTellsWhatHappened | src/ark_mcp/tools/vod_get_enhancement_task.py:160-216 | Case by case what a caller reports: the shared artifact, the cached one, the copied one, a rejected copy's own issue, or a retryable `storage_failed`; the record carries exactly that artifact or issue |
| SingleFlight.ValidExactlyWhenBuilt | src/ark_mcp/tools/vod_get_enhancement_task.py:108-135 | The validator accepts exactly the records that an outcome leads to, and failed ones with an artifact besides |
| SingleFlight.TaskArtifactPersistenceLocks.Register | src/ark_mcp/runtime.py:187-199 | The new registry is the old one with the task's live entry counted once more, or a fresh one |
| SingleFlight.TaskArtifactPersistenceLocks.Deregister | src/ark_mcp/runtime.py:205-212 | One user less, and the entry leaves the registry exactly with its last user |
| SingleFlight.TaskArtifactPersistenceLocks.PersistUnderLock | src/ark_mcp/tools/vod_get_enhancement_task.py:160-209 | Shared result first, then cache, then copy; what is left in the shared slot |
| SingleFlight.TaskArtifactPersistenceLocks.PersistLocked | src/ark_mcp/runtime.py:200-204 | Acquiring and releasing the entry's lock around the body changes nothing but the shared slot |
| SingleFlight.TaskArtifactPersistenceLocks.PersistOutput | src/ark_mcp/tools/vod_get_enhancement_task.py:138-216 | The whole function: nothing without an address or a request, else the pass's outcome and registry |
| Budget.BudgetSafety | src/ark_mcp/runtime.py:702-755 | Over every run of concurrent billed calls, abandoned ones and prunes included, reserved plus committed never exceeds the limit of any day and owner |
| Budget.LedgerConservation | src/ark_mcp/runtime.py:757-788 | On unpruned days the committed and released totals are the summed estimates of the calls that settled accordingly, and the reserved total that of the calls in flight, not settled yet, or cancelled before they settled |
| Budget.SettlingPrunedIsHarmless | src/ark_mcp/runtime.py:687-695 | Settling a call whose row was pruned changes no row |
| Budget.CommitKeepsLimit | src/ark_mcp/runtime.py:757-775 | Committing a row keeps a limit that held exactly when it was not released before or its amount still fits |
| Budget.StepKeepsInv | src/ark_mcp/runtime.py:702-788 | The table is at every step the one that the history of calls accounts for, and within the limit |
| Budget.AcceptedExactlyWithinLimit | src/ark_mcp/runtime.py:718-733 | A reservation is accepted exactly if the limit still holds with it |
| Budget.ExpectedAfterSettle | src/ark_mcp/runtime.py:763-775 | Settling a call rewrites its own row and no other |
| Budget.ExpectedUnsettled | src/ark_mcp/runtime.py:933-946 | Nothing else that becomes of a call, cancellations included, changes the table |
| Budget.UsageAfterDelete | src/ark_mcp/runtime.py:777-788 | A prune leaves the totals of kept days alone and zeroes those of earlier days |
| Budget.BudgetLedger.constructor | src/ark_mcp/runtime.py:683-700 | Empty table, first id 1, the given limit |
| Budget.BudgetLedger.Reserve | src/ark_mcp/runtime.py:702-755 | Refused exactly when the limit would be exceeded, else one reserved row under a fresh id |
| Budget.BudgetLedger.Commit | src/ark_mcp/runtime.py:757-775 | Only the rows of the id change, to committed; keeps the limit unless it revives a released row |
| Budget.BudgetLedger.Release | src/ark_mcp/runtime.py:760-775 | Only the rows of the id change, to released; keeps the limit |
| Budget.BudgetLedger.Prune | src/ark_mcp/runtime.py:777-788 | Exactly the rows of earlier days go, counted |
| Budget.SettleCall | src/ark_mcp/runtime.py:933-946 | How the body ended decides which status the row gets; a cancellation leaves it |
| Budget.BilledProviderSlot | src/ark_mcp/runtime.py:918-946 | The one row a billed call adds and its status by how the body ended; cancellation at any point leaves it reserved |
| RateLimit.TokenBucketBound | src/ark_mcp/security/http_middleware.py:158-184 | Any stretch of any run admits at most capacity + rate * (length + skew) requests of a client; the skew is zero with one clock reading per call |
| RateLimit.TokenBucketMaximal | src/ark_mcp/security/http_middleware.py:158-173 | No policy with a bucket of the same capacity and rate that never goes negative admits more of a client's requests, at any point of any run |
| RateLimit.SkewIsAttained | src/ark_mcp/security/http_middleware.py:158-177 | With a table one client short of evicting, three requests attain the bound, one above capacity + rate * length |
| RateLimit.TokensInRange | src/ark_mcp/security/http_middleware.py:158-173 | Stored tokens stay between zero and capacity in every run |
| RateLimit.TokenBalance | src/ark_mcp/security/http_middleware.py:158-184 | Initial level plus refill (plus skew) covers the admitted requests plus the final level |
| RateLimit.EvictionInvisible | src/ark_mcp/security/http_middleware.py:175-184 | An eviction changes no client's level at or after its clock reading |
| RateLimit.EvictedExactly | src/ark_mcp/security/http_middleware.py:175-184 | Exactly the buckets back at full capacity are removed |
| RateLimit.EvictionSkew | src/ark_mcp/security/http_middleware.py:158-177 | Before its clock reading an eviction only favours the client, by at most the refill of the skew |
| RateLimit.FoundIsLevel | src/ark_mcp/security/http_middleware.py:158-184 | A request finds its client's level exactly unless it evicts and the client's bucket becomes full between its two clock readings |
| RateLimit.EvictionsNeverMatter | src/ark_mcp/security/http_middleware.py:158-184 | Every run in which no bucket becomes full between the two readings of its client's call decides as a limiter with any other table size |
| RateLimit.RefusalsNeverMatter | src/ark_mcp/security/http_middleware.py:158-173 | In such a run, taking the refused requests out changes no other decision and no later level |
| RateLimit.OneReadingNeverCrosses | src/ark_mcp/security/http_middleware.py:158-177 | With one clock reading per call every run is such a run |
| RateLimit.RefusedLevel | src/ark_mcp/security/http_middleware.py:165-173 | A refused request costs its client nothing |
| RateLimit.RetryAfterSuffices | src/ark_mcp/security/http_middleware.py:122-139 | A refused client that waits the advertised whole seconds with none admitted in between is admitted; with one clock reading, exactly from the unrounded wait on |
| RateLimit.WaitIsPositive | src/ark_mcp/security/http_middleware.py:122-123 | The wait is zero exactly for admitted requests, so testing it for being positive is the decision |
| RateLimit.RateLimitMiddleware.constructor | src/ark_mcp/security/http_middleware.py:99-113 | Capacity is a positive burst or the rate per minute; the rate is per second |
| RateLimit.RateLimitMiddleware.EvictExpired | src/ark_mcp/security/http_middleware.py:175-184 | Exactly the fully refilled buckets go |
| RateLimit.RateLimitMiddleware.Consume | src/ark_mcp/security/http_middleware.py:158-173 | The new table, the wait, and the range of the stored tokens |
| RateLimit.RateLimitMiddleware.Call | src/ark_mcp/security/http_middleware.py:115-145 | Forwarded exactly when admitted or not limited, else refused with the rounded-up wait |
| Timestamps.TextOrderIsTimeOrder | src/ark_mcp/runtime.py:358-369 | For any two UTC instants, comparing their written texts, fractions omitted when zero, is comparing them in time |
| Timestamps.DateTextOrderIsDayOrder | src/ark_mcp/runtime.py:777-788 | The same for dates and days |
| Timestamps.FractionOrder | src/ark_mcp/runtime.py:282 | The omitted fraction sorts before every written one |
| Timestamps.MicrosOrder | src/ark_mcp/runtime.py:632-643 | Instants are ordered as their calendar and clock fields |
| Timestamps.IsoReadsBack | src/ark_mcp/runtime.py:553-554 | Every field of a written timestamp can be read back from its place, the fraction exactly if it is not zero |
| Timestamps.DistancesAreTimes | src/ark_mcp/runtime.py:553-557 | One day later, across month and year ends, is 86 400 seconds more; within a day differences are those of the clock fields |
| Timestamps.CalendarIsGregorian | src/ark_mcp/runtime.py:633 | The days before 1970, and the cycle of 400 years |
| ArtifactCache.CacheRefinesMap | src/ark_mcp/runtime.py:538-643 | After every run a lookup of a key still in the table yields the value last set since the last pop or clear, exactly up to the time to live after it was set; others yield nothing; the table is within its size |
| ArtifactCache.RowsLeaveExactly | src/ark_mcp/runtime.py:560-643 | A row leaves the table exactly by not being among the newest, a pop, a clear, or a prune at an age over the time to live |
| ArtifactCache.PrunesNeverMatter | src/ark_mcp/runtime.py:632-643 | Prunes may be put anywhere into a run without changing one answer, as long as lookups read their clock no earlier than the prunes before them and no value waits longer for the table than it lives |
| ArtifactCache.FreshRowAtRisk | src/ark_mcp/runtime.py:582-593 | The eviction may drop the row just written exactly when the table is too big and as many other rows as fit are stamped no earlier |
| ArtifactCache.EvictionFollows | src/ark_mcp/runtime.py:582-593 | What a pruned table keeps in an eviction is its part of what the unpruned one keeps |
| ArtifactCache.PruneByAge | src/ark_mcp/runtime.py:632-643 | The text comparison deletes exactly the rows older than the cutoff |
| ArtifactCache.NewestExists | src/ark_mcp/runtime.py:584-592 | The eviction's selection has a result for every table and size |
| ArtifactCache.SQLiteTaskArtifactCache.Get | src/ark_mcp/runtime.py:538-558 | A value exactly if there is a row no older than the time to live, and then the row's |
| ArtifactCache.SQLiteTaskArtifactCache.Set | src/ark_mcp/runtime.py:560-595 | Exactly the newest keys stay, with the new value or their old rows |
| ArtifactCache.SQLiteTaskArtifactCache.Pop | src/ark_mcp/runtime.py:597-623 | The value exactly if the row is no older than the time to live; the row is gone even if it was older |
| ArtifactCache.SQLiteTaskArtifactCache.Clear | src/ark_mcp/runtime.py:625-630 | No rows |
| ArtifactCache.SQLiteTaskArtifactCache.PruneExpired | src/ark_mcp/runtime.py:632-643 | Exactly the rows a lookup would ignore now go, counted |
| Ownership.MigrationIsResumable | src/ark_mcp/runtime.py:224-257 | From any mix of tables, any number of start-ups stopped after any statement and then a complete one end as one uninterrupted start-up, no statement fails, and another start-up changes nothing |
| Ownership.MigrationKeepsRows | src/ark_mcp/runtime.py:224-257 | Every earlier key survives and nothing else appears; which row wins where several tables have one |
| Ownership.PlanResumes | src/ark_mcp/runtime.py:482-515 | Every prefix of the statements can run and leaves the result of the migration unchanged (the cache migrates by the same statements) |
| Ownership.ExecutionsStartOnce | src/ark_mcp/security/tasks.py:97-116 | Over any redeliveries, workers, crashes and restarts a task's handler starts as often as its claim row was inserted, less the claims that were lost before the start or are about to start: at most once until the row is pruned |
| Ownership.StepKeepsClaims | src/ark_mcp/security/tasks.py:97-116 | Every step keeps that account of claims |
| Ownership.OneModeOneOwner | src/ark_mcp/security/tasks.py:80-94 | In a server that keeps its authentication mode, all principals that claimed a task between two prunes of its row are the same principal and tenant |
| Ownership.TasksHaveOneOwner | src/ark_mcp/security/tasks.py:80-94 | In every run, two grants of a task between two prunes differ exactly if one is the local principal's without a row and the other has a row of somebody else |
| Ownership.CheckGrants | src/ark_mcp/runtime.py:324-343 | In every reachable state the check passes for the row's owner, and without a row exactly in local mode; a claim that inserted its row finds it for at least a day |
| Ownership.LocalGapIsReal | src/ark_mcp/runtime.py:324-369 | A run with prunes of day-old rows only and one restart in which a local and a remote principal both succeed on one task |
| Ownership.ClaimMcpTaskOwner | src/ark_mcp/security/tasks.py:80-89 | Succeeds exactly if there was no row or it was the claimant's; inserts at most the claim |
| Ownership.GuardTaskExecution | src/ark_mcp/security/tasks.py:97-116 | The handler runs exactly outside background tasks or for whoever inserts the execution claim |
| Ownership.OutdatedIsOlder | src/ark_mcp/runtime.py:358-369 | The text comparison hits exactly the rows older than the cutoff |
| Ownership.SQLiteTaskOwnershipStore.constructor | src/ark_mcp/runtime.py:217-222 | Opening a database of any layout leaves the migrated one |
| Ownership.SQLiteTaskOwnershipStore.EnsureSchema | src/ark_mcp/runtime.py:224-257 | The statement sequence ends in the migrated database |
| Ownership.RecordHandsOver | src/ark_mcp/runtime.py:281-305 | After a record exactly the new owner's identity passes the check, no other task changes hands, and no prune treats the row differently |
| Ownership.SQLiteTaskOwnershipStore.Record | src/ark_mcp/runtime.py:281-305 | Exactly the new owner's identity passes the check for the task; an existing row keeps its age; every other row is as before |
| Ownership.SQLiteTaskOwnershipStore.Claim | src/ark_mcp/runtime.py:307-322 | True exactly when there was no row; an existing row is left alone |
| Ownership.SQLiteTaskOwnershipStore.RequireOwner | src/ark_mcp/runtime.py:324-343 | Passes exactly for the row's owner, or the local principal where there is no row |
| Ownership.SQLiteTaskOwnershipStore.Prune | src/ark_mcp/runtime.py:358-369 | Exactly the rows created before the cutoff go, counted |
| MediaPolicy.WalkUndoesLayout | src/ark_mcp/security/media_policy.py:167-199 | On every file laid out as RIFF/WAVE says, whatever its chunks, odd sizes padded, the walk finds the size the first data chunk declares and the rate at offset 16 of the last `fmt ` chunk with 24 bytes after it |
| MediaPolicy.DurationIsDeclared | src/ark_mcp/security/media_policy.py:167-199 | The rate found is the declared one if every `fmt ` payload has at least 12 bytes, or a later chunk overrides those that have not |
| MediaPolicy.SeenIsForeign | src/ark_mcp/security/media_policy.py:184-187 | Otherwise the rate is read across the end of a chunk too short to hold it |
| MediaPolicy.RateIsTheChunksOwn | src/ark_mcp/security/media_policy.py:184-187 | The payload of a `fmt ` chunk alone decides the rate read from it exactly if it has at least 12 bytes |
| MediaPolicy.ShortFormatMisleads | src/ark_mcp/security/media_policy.py:184-187 | In a file with an eight-byte `fmt ` chunk before the data chunk the letters of "data" are the rate |
| MediaPolicy.DataFoundOnlyInLayouts | src/ark_mcp/security/media_policy.py:167-199 | On arbitrary bytes: a data size is found exactly in files with such a layout, and is the declared one |
| MediaPolicy.ParseWavDuration | src/ark_mcp/security/media_policy.py:167-199 | On arbitrary bytes, the duration that at the byte rate found takes up the size found, none exactly without a size or a positive rate; on laid-out files the same with the declared rate and size |
| MediaPolicy.PlaysAsOne | src/ark_mcp/security/media_policy.py:197-199 | That determines the duration: times the rate it is the size |
| MediaPolicy.EstimateIsExact | src/ark_mcp/security/media_policy.py:138-152 | On every text that decodes, the estimate is the decoded size |
| MediaPolicy.EncodedSizeIsExact | src/ark_mcp/security/media_policy.py:138-152 | The estimate on the encoding of b is the length of b |
| MediaPolicy.EncodeDecodes | src/ark_mcp/security/media_policy.py:155-164 | Decoding an encoding gives the bytes back |
| MediaPolicy.AlphabetIsStandard | src/ark_mcp/security/media_policy.py:155-164 | The alphabet of RFC 4648, section 4 |
| MediaPolicy.GroupIsBigEndian | src/ark_mcp/security/media_policy.py:155-164 | Four letters carry three bytes, most significant bits first |
| MediaPolicy.EncodesTestVectors | src/ark_mcp/security/media_policy.py:155-164 | Test vectors of RFC 4648, section 10 |
| MediaPolicy.OnlyPaddingGoes | src/ark_mcp/security/media_policy.py:147 | Exactly the trailing padding is stripped, of any text |
| MediaPolicy.CheckBase64Size | src/ark_mcp/security/media_policy.py:138-152 | Refuses exactly estimates over the limit |
| MediaPolicy.DecodeBase64Safely | src/ark_mcp/security/media_policy.py:155-164 | Succeeds exactly on texts that decode to at most the limit, with those bytes; oversized ones are refused before decoding |
| ArtifactFiles.LookupsNeverLie | src/ark_mcp/artifacts/filesystem_store.py:360-404 | In every run of puts and sweeps, each stopped anywhere, on a disk with whole artifacts of any version, a lookup returns exactly what was put, to its owner, or refuses, or finds nothing |
| ArtifactFiles.LookupIsExact | src/ark_mcp/artifacts/filesystem_store.py:350-386 | The answer is decided by whether both files are in place and whose they are |
| ArtifactFiles.SweepIsExact | src/ark_mcp/artifacts/filesystem_store.py:406-434 | An uninterrupted sweep removes both files of exactly the artifacts whose time to live is over; every other lookup answers as before |
| ArtifactFiles.SweepStopped | src/ark_mcp/artifacts/filesystem_store.py:406-434 | A sweep stopped anywhere has removed files of expired artifacts only, and no metadata before its data |
| ArtifactFiles.PutStopped | src/ark_mcp/artifacts/filesystem_store.py:286-321 | What a put leaves when it stops after any file step |
| ArtifactFiles.PutIsRetrievable | src/ark_mcp/artifacts/filesystem_store.py:259-334 | After an uninterrupted put its owner reads back the same bytes and type |
| ArtifactFiles.StaysUntilExpiry | src/ark_mcp/artifacts/filesystem_store.py:406-434 | A stored artifact, of this or an earlier version, stays retrievable through all later puts, sweeps and crashes until a sweep at or past its expiry |
| ArtifactFiles.SweptExactlyWhenDue | src/ark_mcp/artifacts/filesystem_store.py:288-434 | From an uninterrupted put on, through all puts, sweeps and crashes before, the first sweep at `created_at + ttl` or later removes the artifact, and no earlier one does |
| ArtifactFiles.ExpiredIsDue | src/ark_mcp/artifacts/filesystem_store.py:413-420 | What the sweep reads in the metadata is that the time to live since the put is over |
| ArtifactFiles.OrphansStay | src/ark_mcp/artifacts/filesystem_store.py:406-434 | A data file without metadata stays on disk, unreadable for everybody, in every run |
| ArtifactFiles.StoppedPutOrphans | src/ark_mcp/artifacts/filesystem_store.py:286-321 | A put stopped between its data file and its metadata leaves such a file |
| ArtifactFiles.AtomicWriteIsAtomic | src/ark_mcp/artifacts/filesystem_store.py:336-348 | Stopped anywhere, the target is untouched or complete |
| ArtifactFiles.StepKeepsInv | src/ark_mcp/artifacts/filesystem_store.py:286-434 | Every interrupted or complete operation keeps visible files whole |
| ArtifactFiles.MimeToExt | src/ark_mcp/artifacts/filesystem_store.py:108-131 | Every extension written is among those a lookup tries |
| ArtifactFiles.FilesystemArtifactStore.AtomicWrite | src/ark_mcp/artifacts/filesystem_store.py:336-348 | All or nothing, and a failure leaves no temporary file |
| ArtifactFiles.FilesystemArtifactStore.StoreBytes | src/ark_mcp/artifacts/filesystem_store.py:259-334 | Refusals, which files exist after a failure of either write, and the reference returned: type, size, creation time, and expiry one time to live later |
| ArtifactFiles.FilesystemArtifactStore.Get | src/ark_mcp/artifacts/filesystem_store.py:360-386 | The exact answer of a lookup on a store that keeps the invariant |
| ArtifactFiles.FilesystemArtifactStore.DeleteIfExpired | src/ark_mcp/artifacts/filesystem_store.py:413-425 | Both files of the artifact go if it is expired, nothing else |
| ArtifactFiles.FilesystemArtifactStore.DeleteExpired | src/ark_mcp/artifacts/filesystem_store.py:406-434 | Exactly the files of expired artifacts go, and the artifacts are counted |
| Retry.CallWithRetry | src/ark_mcp/providers/retry.py:33-79 | At most `max_attempts` calls; each further one follows a retryable unambiguous error and its pause, which is the requested one up to the maximum or the jittered backoff; the last call's result is returned, or the cancellation of a pause |
| Retry.MakePolicy | src/ark_mcp/providers/retry.py:23-30 | Exactly the policies that are refused |
| Retry.RetryRunIsUnique | src/ark_mcp/providers/retry.py:33-79 | These clauses determine the number of calls and the result |
| Retry.DelayIsExact | src/ark_mcp/providers/retry.py:59-68 | The computed pause is the requested one up to the maximum, or the doubled and capped base spread by the jitter |
| Retry.DelayIsBounded | src/ark_mcp/providers/retry.py:59-68 | A requested pause is kept exactly or cut to the maximum; another one lies within the jitter around the backoff; none is negative |
| Retry.PausesDouble | src/ark_mcp/providers/retry.py:62-68 | Without jitter the pauses start at the base delay and double up to the maximum |
| Retry.TotalSleepIsBounded | src/ark_mcp/providers/retry.py:33-79 | All pauses together are at most (max_attempts - 1) * max_delay * (1 + jitter_ratio) |
| Retry.CallModelArk | src/ark_mcp/providers/modelark/client.py:68-109 | No timeout and no accepted request is followed by another send, and for a mutation no 5xx answer; sends follow exactly the listed exchanges, after the pause the answer's Retry-After asks for |
| Retry.AnswerRaisesExactly | src/ark_mcp/providers/modelark/client.py:73-100 | Exactly the bodies and headers of error answers that raise instead of becoming an error record |
| Retry.RequestIsKept | src/ark_mcp/providers/modelark/client.py:84-100 | The error of an answer keeps its Retry-After |
| Retry.ReplayableMeansSentAgain | src/ark_mcp/providers/modelark/client.py:68-109 | The errors and exceptions made of an exchange, its error body included, are replayable exactly for those exchanges |
| Retry.MutationReplayIsSafeExcept | src/ark_mcp/providers/base.py:152-164 | A mutation that may have been carried out is sent again exactly after a broken connection |
| Retry.ReleasedThoughExecuted | src/ark_mcp/runtime.py:933-946 | Over all exchanges of a retried mutation: exactly when its reservation is released although it may have been carried out |
| Retry.ChargedThoughNotExecuted | src/ark_mcp/providers/base.py:119-136 | Exactly when it is charged although it cannot have been |
| Retry.WhatIsSettled | src/ark_mcp/runtime.py:933-946 | The last exchange alone decides the settlement, unless the caller was cancelled |
| Retry.WhatMayHaveExecuted | src/ark_mcp/providers/base.py:152-164 | What a retried mutation may have done: its last exchange, or a broken connection on the way |
| Retry.BrokenConnectionGoesUncharged | src/ark_mcp/providers/base.py:152-164 | A broken connection and then a 400 answer: a mutation that may have been carried out is released |
| Retry.BilledMutation | src/ark_mcp/tools/seedance_create_task.py:280-286 | Against the ledger: the row a billed, retried mutation leaves, and exactly when it is released although some exchange may have been carried out |
| Limiters.ConfiguredLimitsHold | src/ark_mcp/runtime.py:76-128 | In every run at most `provider_limit` callers are inside per provider, `principal_limit` per principal semaphore, and a batch's own limit per batch |
| Limiters.LimitsHold | src/ark_mcp/runtime.py:112-128 | The same for any assignment of limits to semaphores |
| Limiters.EntersBelowConfiguredLimit | src/ark_mcp/runtime.py:112-128 | In every reachable state a caller can enter its next semaphore exactly while fewer than the configured limit are inside |
| Limiters.EntersBelowLimit | src/ark_mcp/runtime.py:112-128 | The same for any assignment of limits |
| Limiters.NoDeadlock | src/ark_mcp/tools/_parallel.py:88-95 | With batch, provider and principal always taken in this order, some unfinished caller can move in every reachable state, and without new callers every schedule ends |
| Limiters.ConfiguredNoDeadlock | src/ark_mcp/runtime.py:76-128 | In particular with the configured limits |
| Limiters.FindMover | src/ark_mcp/runtime.py:112-128 | From a blocked caller, following holders of higher semaphores reaches one that can move |
| Limiters.StepKeepsInv | src/ark_mcp/runtime.py:112-128 | Free permits plus holders make up the limit after every step, cancellations included |
| Limiters.KeysSeparatePrincipals | src/ark_mcp/runtime.py:103-110 | Principals share a semaphore key exactly when they are the same principal and tenant, or one tenant contains the separator and continues the other's id |
| Limiters.ProviderLimiters.Make | src/ark_mcp/runtime.py:76-98 | Refused exactly for limits that are not positive |
| Limiters.ProviderLimiters.PrincipalSemaphore | src/ark_mcp/runtime.py:103-110 | The live semaphore of the principal, or a new one if there is none or the cache dropped it; the others that were not dropped stay |
| Limiters.ProviderLimiters.PathFor | src/ark_mcp/runtime.py:112-128 | Provider first, then for remote callers the principal; always climbing |
| Limiters.Summarize | src/ark_mcp/tools/_parallel.py:98-132 | One result per coroutine in order; exactly the coroutines that produced an artifact or a task are counted as succeeded, all others as failed; impossible exactly when one was cancelled from outside |
| Limiters.SeedsAreDistinct | src/ark_mcp/tools/_parallel.py:21-35 | Consecutive seeds start at the base, go up by one around the range, and are distinct exactly up to its size; drawn ones are distinct exactly if the draws are; without a base there are none |

## Left out

- SingleFlight.SingleFlightPerLifetime: a copy that is cancelled counts as not made, although its file may already be on disk; nobody reports that file.
- SingleFlight.OneCopyPerTask: the honest cache has no expiry and no eviction; without those assumptions the claim is the one per lifetime.
- Ownership.SQLiteTaskOwnershipStore.constructor: assumes that stored creation times are well-formed timestamps.
- ArtifactFiles.MimeToExt: which extension belongs to which type is a table that nothing reads back; only that lookups try it matters.
- Limiters.NoDeadlock: limits are positive; the shared limiters insist on that, a batch's own limit is a constant in every caller.
- Limiters.ProviderLimiters.PrincipalSemaphore: which keys the cache has dropped is an argument; its size and time limits are not modelled.
- Limiters.ConfiguredLimitsHold: the bound is per semaphore object; the cache of per-principal semaphores may expire one while it is held and make another.
- MediaPolicy.EncodeDecodes: the decoder is a model of strict standard Base64 (section 4 of RFC 4648) that ignores unused trailing bits.
- ArtifactFiles.FilesystemArtifactStore.StoreBytes: the verdict of the MIME validators is an argument.
- Retry.CallModelArk: an infinite Retry-After and a broken content encoding are modelled; a body that exhausts the JSON parser's recursion is not.
- Ownership.ExecutionsStartOnce: a run starts from an empty table and the clock does not go back.
- `list`, `ping` and `close` operations.
- HTTP, provider SDKs, the task queue and token verification are foreign code; a provider call is a nondeterministic outcome.
- SQLite itself: every locked closure is atomic, every migration statement durable when it finishes; no WAL, no busy timeouts, no thread that outlives its cancelled caller.
- Floating-point rounding of tokens, dollars and delays; amounts are exact reals.
- Repeated UUIDs and colliding hashes; ids are fresh.
- The order in which waiters of a lock or semaphore are served; any waiter may be next.
- Artifact id validation, path-escape checks, the object storage stores and the safe downloader: field checks and foreign I/O.
- JSON of cache values and metadata; values are stored as they are.
- Deriving the client key from a forwarding header, and the request body limit: one-branch plumbing.
- Cost estimation, tool inputs, request builders, settings, logging and metrics: easy members only.
- Transcode, audio-separation and polling persistence, which use the cache without the lock.
- More than one semaphore path per variation: a variation that makes several provider calls is several callers outside the batch's own semaphore.
