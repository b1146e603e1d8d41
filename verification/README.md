# Verification of the foundation library's stores, limiter, caches, parsers and templates

This project models the stateful and arithmetical core of `packages/foundation` and the dashboard template engine of
`packages/foundation-cdk` in Dafny, and proves what their documentation promises of them. `dafny verify
dfyconfig.toml` checks everything.

## What is modelled

- **Key-value stores** (`KvTypes`, `KvRows`, `KvContract`, `KvAgreement`, `KvFreshness`, `KvSweep`, `KvOptimistic`,
  `MemoryKvStore`, `PostgresKvStore`, `DynamoKvStore`, `PutIfAbsentProtocol`, `PutIfAbsentLinear`,
  `PutIfAbsentProgress`). A row is a value, a version, an optional expiry in seconds and an optional index key. Every
  conditional write or SQL statement is one atomic step under an injected clock. The three adapters are classes over a
  map or a table, each method proved against the row-level step of its backend; `KvContract` says what those steps mean
  to a caller who reads afterwards, and the comparisons, convergence and concurrency results are lemmas about them.
  DynamoDB's `putIfAbsent`, which is not one step, is a state machine with a program counter for each call.
- **Token-bucket limiter** (`TokenBucket`, `LimiterProtocol`, `MemoryLimiter`). The arithmetic is over exact reals. The
  optimistic-concurrency loop shared by the Postgres and DynamoDB limiters is a state machine: clock reading, row reading
  and guarded write are separate steps of any number of calls, and a write may also fail for other reasons.
- **Secret cache** (`SecretCacheSpec`, `SecretCache`). A class that owns mutable buffers, proved to refine a
  recency-ordered list; ghost sets say which buffers it owns and which it has let go.
- **Network addresses** (`Bits`, `Cidr`, `Text`, `Ipv4Text`, `Ipv6Text`, `Ipv6Accepts`). JavaScript's signed 32-bit operators are
  defined on integers. The IPv6 parser is proved against a function, and the function against the text forms of section
  2.2 of RFC 4291 and, text by text, against what it accepts beyond them.
- **Audit** (`Ulid`, `AuditMetadata`) and **dashboard templates** (`EnclosingObject`, `JsonText`,
  `DashboardTemplate`).

Clock readings, random bytes, JSON validity and the conversion of text to numbers are parameters.

## Where the code and its documentation differ

- The store contract calls `putIfAbsent` a single atomic operation (`packages/foundation/src/kv/store-types.ts:97-100`). In
  DynamoDB it is three. `PutIfAbsentProtocol` proves that a live record is overwritten only if the item was removed, or
  given a version no higher than it had, between the very call's read and its write, and gives a run with a removal and
  one with a freshness write in which it is. While nothing resets the versions like that, `PutIfAbsentLinear` proves
  every answer linearizable but the one that names no record.
- An item without a version attribute is said to read as version 0 and to need no migration
  (`packages/foundation/src/kv/dynamo-kv-store.ts:9`). A takeover's guard compares the attribute with 0, which is false of a missing
  attribute, so such an item, once expired, refuses every create-once.
- Metadata over the limit is said to be truncated until it fits
  (`packages/foundation/src/audit/audit-log.ts:57-60`). The flag is added afterwards and can carry the persisted metadata over
  the limit, by at most 26 bytes for a positive limit; `PersistedFitsExactlyWhen` says when it does not.
- Template substitution is said to preserve values exactly (`packages/foundation-cdk/lib/dashboards/house-dashboard.ts:136-138`).
  A `$` pattern in a value is expanded by `replaceAll`; `ValueArrivesExactlyWhen` gives the exact condition. A value that
  ends in `$` can complete a placeholder with the text behind it; `SimultaneousExactlyWhen` says which values cannot.
- Sweeping expired rows is said to have no bearing on correctness
  (`packages/foundation/src/kv/postgres-kv-store.ts:379-382`). An increment over an expired row goes on counting from the old value
  until the row is swept; `KvSweep` says which calls notice a sweep. A client's compare-and-set can, after a sweep and a
  new create, replace a record it never saw (`SweepLosesAnUpdate`).
- The limiters' guard on the refill time is to prevent lost updates (`packages/foundation/src/rate-limit/dynamo-limiter.ts:266-283`).
  Within the millisecond of a refill it does not tell rows apart; `LimiterProtocol` says exactly when that costs an update.
- A counter field may be any identifier (`packages/foundation/src/kv/dynamo-kv-store.ts:399-401`), so `increment` can address the
  DynamoDB item's own expiry attribute and move the expiry, where the other adapters count in the value.
- Partition keys are said not to collide once keys lack the separator (`packages/foundation/src/kv/dynamo-kv-store.ts:57-62`).
  That holds among layouts with one separator; `NamespacesAreDisjointExactlyWhen` gives the condition for any two.
- An index query is said to return only records of its namespace (`packages/foundation/src/kv/dynamo-kv-store.ts:490-492`). It
  compares prefixes, so it also lists what a namespace has written whose prefix extends its own, under keys it refuses;
  `QueriesOnlyItsOwnExactlyWhen` gives the condition.
- Every write is said to bump the version by exactly 1 (`packages/foundation/src/kv/store-types.ts:28-33`), so that a stale
  guarded delete fails after a takeover (`packages/foundation/src/kv/memory-kv-store.ts:15-19`). Freshness writes outside
  Postgres leave version 1, as the adapters note, and so does the in-memory compare-and-set on absence over an expired
  row, which they do not; `KvRows` has the exact conditions.
- The IPv6 parser is said to return null on parse failure (`packages/foundation/src/net/cidr.ts:75-84`). It accepts texts that
  section 2.2 of RFC 4291 does not allow, such as a `::` that stands for no group, further colons beside it, or a dotted quad
  before it, which it moves to the end; `Ipv6Accepts` says exactly which.
- The cache takes buffers by reference (`packages/foundation/src/secrets/cache.ts:79-83`). A buffer it holds already may be passed
  again: under the same key it is zeroed and stored, under another it is shared and zeroed for both.
- A freshness write that is not the newest is to lose to it (`packages/foundation/src/kv/store-types.ts:176-182`). In the
  in-memory adapter an expired record counts as absent, so an earlier expiry can still replace it;
  `MemoryConvergesExactlyWhen` says when the order of the writes does not matter.

## Model

| member | source | states |
|---|---|---|
| PutIfAbsentProtocol.LiveRecordNeverOverwritten | packages/foundation/src/kv/dynamo-kv-store.ts:273-319 | in particular, while nothing removes the item or gives it a version no higher than it had, whatever a create-once write replaces had expired at that instant |
| PutIfAbsentProtocol.LiveOverwrittenOnlyAfterOwnReset | packages/foundation/src/kv/dynamo-kv-store.ts:273-319 | in every interleaving of any number of create-once calls, other clients' writes of any kind, removals and clock ticks, a create-once write replaces a live record only if between that call's own read and its write the item was removed or given a version no higher than it had |
| PutIfAbsentProtocol.GuardPassesExactlyWhen | packages/foundation/src/kv/dynamo-kv-store.ts:298-308 | with no such reset since the read, the takeover guard passes if and only if the very item seen still stands and carries a version; over anything else if and only if, after a reset, a different item carries the version seen |
| PutIfAbsentProtocol.TakeoverCanHitLiveExactlyWhen | packages/foundation/src/kv/dynamo-kv-store.ts:298-308 | a takeover waiting in any reachable state can still go on to overwrite a live record if and only if the version it saw is at least 1 |
| PutIfAbsentProtocol.SuccessMeansWritten | packages/foundation/src/kv/dynamo-kv-store.ts:273-319 | the calls that report success are exactly the calls whose conditional write went through, each once, with the item they wrote |
| PutIfAbsentProtocol.WinsFormAChain | packages/foundation/src/kv/dynamo-kv-store.ts:273-319 | each applied write replaced the one applied before it, at a time no earlier |
| PutIfAbsentProtocol.TwoAppliedMeansFirstExpired | packages/foundation/src/kv/dynamo-kv-store.ts:296-308 | two applied results on one key: the first record had expired by the time the second was written |
| PutIfAbsentProtocol.TakeoversAreUnique | packages/foundation/src/kv/dynamo-kv-store.ts:298-318 | for every version from the first on, exactly one takeover built on it is applied once the item has moved past it, and none before |
| PutIfAbsentProtocol.ExactlyOneTakeoverWins | packages/foundation/src/kv/dynamo-kv-store.ts:298-318 | of all concurrent takeovers of the same expired versioned item exactly one wins |
| PutIfAbsentProtocol.TakeoverAppliesExactlyToVersionedItems | packages/foundation/src/kv/dynamo-kv-store.ts:300-307 | a takeover of an unchanged expired item applies if and only if the item carries a version attribute |
| PutIfAbsentProtocol.UnversionedItemIsNeverTakenOver | packages/foundation/src/kv/dynamo-kv-store.ts:300-307 | an item without version attribute is never replaced by create-once, in any run, whatever its expiry |
| PutIfAbsentProtocol.RemovalBreaksTheGuarantee | packages/foundation/src/kv/dynamo-kv-store.ts:292-308 | a concrete run with one physical removal in which a live record is overwritten: versions restart at 1 |
| PutIfAbsentProtocol.FreshnessWriteBreaksTheGuarantee | packages/foundation/src/kv/dynamo-kv-store.ts:363-387 | a concrete run without removal in which a live record is overwritten: a freshness write leaves version 1 over version 1 |
| PutIfAbsentLinear.FinishedCallsAreExplained | packages/foundation/src/kv/dynamo-kv-store.ts:273-319 | in every interleaving each finished call answered as the atomic create-once does at some instant while it ran, a write taking effect at that instant, or was told that it lost to no record, or wrote after a reset between its own read and its write |
| PutIfAbsentLinear.LinearizableExactlyWhen | packages/foundation/src/kv/dynamo-kv-store.ts:309-318 | while nothing resets the versions, a finished call is linearizable if and only if its answer names a record; the answer without one is given when the winner has expired by the time it is judged |
| PutIfAbsentProgress.AloneIsAtomicExactlyWhen | packages/foundation/src/kv/dynamo-kv-store.ts:273-319 | from its entry in any state a call left alone answers within seven steps, within five unless it meets an expired item without version; answer and item are those of the atomic step if and only if it does not meet one |
| PutIfAbsentProgress.FoundGoneStartsOver | packages/foundation/src/kv/dynamo-kv-store.ts:292-295 | a read that finds the item gone makes the call start over with its expiry resolved anew |
| PutIfAbsentProgress.UnversionedReadsAsZero | packages/foundation/src/kv/dynamo-kv-store.ts:186-192 | a live item without version attribute is answered as a record of version 0 |
| PutIfAbsentProgress.StepLowersRank | packages/foundation/src/kv/dynamo-kv-store.ts:273-319 | in any state a step of an unfinished call lowers its rank if and only if it is no read that finds the item gone, and no other event moves the call |
| PutIfAbsentProgress.EveryCallAnswers | packages/foundation/src/kv/dynamo-kv-store.ts:273-319 | in every interleaving a call that has been given seven steps, and three more for each removal of the item, has answered |
| PutIfAbsentProtocol.ExecKeepsSafe | packages/foundation/src/kv/dynamo-kv-store.ts:273-319 | every step keeps the safety invariant: what a call remembers is still the item or its version has moved on, unless the item's versions were reset since the call read it |
| PutIfAbsentProtocol.ExecKeepsOneWinnerEach | packages/foundation/src/kv/dynamo-kv-store.ts:298-318 | every step keeps one winner for each version |
| LimiterProtocol.CommittedWritesAreSequential | packages/foundation/src/rate-limit/postgres-limiter.ts:215-315 | the committed writes form one sequential run of the plain limiter, answer by answer, in every interleaving, stale reads included, whose writes come after the refill time they read, or in its very millisecond while no other call holds a row of that time, and whose stale reads do not return a row of the current refill time |
| LimiterProtocol.StrictlyLaterIsOrderly | packages/foundation/src/rate-limit/dynamo-limiter.ts:182-235 | if every committing attempt read a clock strictly later than the refill time it read, the run is of that kind, however stale its reads |
| LimiterProtocol.AnsweredOnceWithinThreeAttempts | packages/foundation/src/rate-limit/postgres-limiter.ts:225-239 | every call sends at most three guarded writes and is answered, hence committed, at most once |
| LimiterProtocol.FailsOpenExactlyWhen | packages/foundation/src/rate-limit/postgres-limiter.ts:225-257 | a refused guarded write is answered at once, unguarded, if and only if it was the third one or the error is not retried; otherwise the call starts over and nothing has been answered |
| LimiterProtocol.OpenOnlyAfterThreeWritesOrFatalError | packages/foundation/src/rate-limit/dynamo-limiter.ts:182-217 | in every run a call is answered unguarded only after exactly three guarded writes or after an error that is not retried |
| LimiterProtocol.AloneIsPlainLimiter | packages/foundation/src/rate-limit/postgres-limiter.ts:215-257 | a call that reads the current row with nothing in between commits and answers what the plain limiter does |
| LimiterProtocol.AnyEarlierRowMayBeRead | packages/foundation/src/rate-limit/dynamo-limiter.ts:219-237 | a read may return any row that stood before |
| LimiterProtocol.SpentIsCommittedPlusOpen | packages/foundation/src/rate-limit/postgres-limiter.ts:225-257 | the allowed cost splits into what was committed and what was answered on the fail-open path |
| LimiterProtocol.ConcurrentWindowBound | packages/foundation/src/rate-limit/postgres-limiter.ts:215-315 | under the same condition all concurrent calls together are allowed, in any window, at most capacity + refillRate * T plus the costs answered on the fail-open path |
| LimiterProtocol.BothCommitExactlyWhen | packages/foundation/src/rate-limit/postgres-limiter.ts:302-313 | in every state in which two calls hold the row that stands, the one that writes first commits, and the second commits on the same tokens if and only if the first one's clock stood at the refill time itself |
| LimiterProtocol.WriteStaysSequentialExactlyWhen | packages/foundation/src/rate-limit/dynamo-limiter.ts:239-284 | a guarded write keeps a sequential run sequential if and only if its guard fails or the row it read is the one that stands |
| LimiterProtocol.BothStaySequentialExactlyWhen | packages/foundation/src/rate-limit/postgres-limiter.ts:302-313 | the writes of two calls that hold the row that stands keep it sequential if and only if the first one's clock is not at the refill time or it leaves the bucket as it was |
| LimiterProtocol.StaleReadStaysSequentialExactlyWhen | packages/foundation/src/rate-limit/dynamo-limiter.ts:219-237 | a call that reads any earlier row and writes keeps it sequential if and only if that row has another refill time than the current one, or is no different |
| LimiterProtocol.SameMillisecondSpendsTwice | packages/foundation/src/rate-limit/postgres-limiter.ts:221-226 | two calls in the millisecond of the last refill both commit and spend the same tokens |
| LimiterProtocol.ExecShape | packages/foundation/src/rate-limit/dynamo-limiter.ts:182-217 | a step of the protocol adds at most one answer, and only a committed answer moves the row, from the row that passed the guard |
| LimiterProtocol.ExecKeepsSequential | packages/foundation/src/rate-limit/dynamo-limiter.ts:239-284 | each guarded write extends the sequential run, whichever call it belongs to |
| KvAgreement.MemoryAgreesWithDynamoExactlyWhen | packages/foundation/src/kv/memory-kv-store.ts:122-222 | one call on one row: the in-memory adapter and DynamoDB give the same row and outcome if and only if a condition on row, clock and call holds |
| KvAgreement.PlainCallsAgree | packages/foundation/src/kv/dynamo-kv-store.ts:325-387 | no compare-and-set on an expired row still present, no freshness write already past and an incremented field that holds a number are enough for that |
| KvAgreement.MemoryAndDynamoRunAlike | packages/foundation/src/kv/dynamo-kv-store.ts:243-497 | every sequential run of all eight operations on any keys under that condition: the same outcomes and the same rows |
| KvAgreement.MemoryAgreesWithPostgresExactlyWhen | packages/foundation/src/kv/postgres-kv-store.ts:124-358 | the exact condition for the in-memory adapter and Postgres, versions of freshness writes aside |
| KvAgreement.ClocksAgreeOutsideExpirySecond | packages/foundation/src/kv/postgres-kv-store.ts:80-102 | second and millisecond expiry tests agree outside the row's expiry second |
| KvAgreement.ClocksDisagreeInExpirySecond | packages/foundation/src/kv/postgres-kv-store.ts:124-144 | and disagree throughout it |
| KvAgreement.StoresStepAlike | packages/foundation/src/kv/postgres-kv-store.ts:124-375 | one call on related stores keeps them related and answers alike |
| KvAgreement.MemoryAndPostgresRunAlike | packages/foundation/src/kv/postgres-kv-store.ts:124-375 | every sequential run in which no call falls in the second a stored row expires: Postgres answers as the in-memory adapter does, versions of freshness-written keys aside |
| KvAgreement.AbsenceOverExpiredRowSplitsThreeWays | packages/foundation/src/kv/memory-kv-store.ts:145-168 | one concrete compare-and-set requiring absence over an expired row: version 1, refused, bumped |
| KvAgreement.DynamoSwapsOnExpiredVersion | packages/foundation/src/kv/dynamo-kv-store.ts:325-357 | one concrete compare-and-set with an expired record's version: DynamoDB applies it, the other two refuse |
| KvOptimistic.VersionCountsWrites | packages/foundation/src/kv/postgres-kv-store.ts:150-339 | while nothing deletes the row its version is what it was plus the number of writes applied, over any run |
| KvOptimistic.ExecKeepsConsistent | packages/foundation/src/kv/postgres-kv-store.ts:212-268 | every step of a client, every other call and every sweep keeps the log of writes, the versions and what clients saw consistent |
| KvOptimistic.NoUpdateIsLost | packages/foundation/src/kv/postgres-kv-store.ts:212-268 | every interleaving of clients, of all other calls on the row, deletes included, and of sweeps: each applied swap was computed from precisely what it replaced, unless the row was removed between that client's own read and its swap |
| KvOptimistic.SwapAppliesOverItsBaseExactlyWhen | packages/foundation/src/kv/postgres-kv-store.ts:246-268 | while the row has not been removed since a client's read, its swap is applied if and only if the very record it saw still stands there live |
| KvOptimistic.NoUpdateIsLostWithoutRemoval | packages/foundation/src/kv/postgres-kv-store.ts:212-268 | without removals versions number the writes from one and each swap was computed from precisely the write before it |
| KvOptimistic.SweepLosesAnUpdate | packages/foundation/src/kv/postgres-kv-store.ts:391-402 | a concrete run: read, sweep, another client creates the row anew, and the first swap replaces that by what it made of the old value |
| KvOptimistic.ChainComposes | packages/foundation/src/kv/postgres-kv-store.ts:212-268 | a log of swaps each built on the one before composes to its last value |
| KvOptimistic.FinalValueComposesAppliedChanges | packages/foundation/src/kv/postgres-kv-store.ts:212-268 | without expiries the final value is the composition of exactly the applied changes in commit order |
| KvOptimistic.RacingPutsLoseAnUpdate | packages/foundation/src/kv/dynamo-kv-store.ts:257-267 | two puts that read the same row write the same version, so one writer's compare-and-set overwrites the other's value; run in turn the compare-and-set is refused |
| KvSweep.SweepRemovesExactlyTheDead | packages/foundation/src/kv/postgres-kv-store.ts:391-402 | the sweep removes exactly the rows past their expiry and counts them; a row without expiry stays |
| KvSweep.DeadRowAnswersAsAbsentExactlyWhen | packages/foundation/src/kv/postgres-kv-store.ts:124-358 | a call on a row past its expiry answers, versions aside, as on no row if and only if it is no read of expired rows, no freshness write at or below the expiry, no increment of a field that is not zero or absent, and no delete that would hit the row |
| KvSweep.DeadRowStepsAsAbsentExactlyWhen | packages/foundation/src/kv/postgres-kv-store.ts:124-358 | and it also leaves a row as over no row, or the dead row itself, if and only if it is besides no increment, save one whose field is the only one and whose expiry is the one that has passed |
| KvSweep.SweepBeforeCallUnnoticedExactlyWhen | packages/foundation/src/kv/postgres-kv-store.ts:391-402 | a sweep just before any call on any table goes unnoticed if and only if the call does not address a dead row or is one of the first kind there |
| KvSweep.CallKeepsRelated | packages/foundation/src/kv/postgres-kv-store.ts:124-375 | a call on a swept and an unswept table answers alike but for versions and keeps the tables related |
| KvSweep.SweepsGoUnnoticed | packages/foundation/src/kv/postgres-kv-store.ts:391-402 | sweeps inserted anywhere in a run change no value, expiry, applied flag or listed key, if every call of the run without sweeps sees no version and is, over a dead row, of the second kind |
| KvSweep.SweepableIsUnswayed | packages/foundation/src/kv/postgres-kv-store.ts:391-402 | expiry-aware reads, puts, create-once, compare-and-set on absence, index queries and freshness writes that have not expired themselves are such calls whatever is stored |
| KvSweep.SweepRestartsCounters | packages/foundation/src/kv/postgres-kv-store.ts:305-339 | a concrete expired counter of value 5: an increment answers 6 before the sweep and 1 after it |
| KvSweep.SweepRestartsVersions | packages/foundation/src/kv/postgres-kv-store.ts:391-402 | a concrete run in which versions do differ |
| KvFreshness.SettlesOnLastToExpire | packages/foundation/src/kv/dynamo-kv-store.ts:363-387 | any sequence of freshness writes with distinct expiries leaves the one that expires last, in DynamoDB and in Postgres |
| KvFreshness.OrderDoesNotMatter | packages/foundation/src/kv/postgres-kv-store.ts:274-299 | any two orders of the same writes leave the same value, expiry and index; in DynamoDB the same version too |
| KvFreshness.MemoryDoesNotConverge | packages/foundation/src/kv/memory-kv-store.ts:174-195 | a concrete pair of writes on which the in-memory adapter depends on the order |
| KvFreshness.MemoryConvergesExactlyWhen | packages/foundation/src/kv/memory-kv-store.ts:174-195 | every order of a sequence of freshness writes with distinct expiries, each with its own clock reading, leaves the one that expires last in the in-memory adapter if and only if that one has not expired when any of the others comes |
| KvFreshness.MemorySettlesExactlyWhen | packages/foundation/src/kv/memory-kv-store.ts:174-195 | in one order: if and only if none of the writes behind it comes after it has expired |
| KvFreshness.MemoryConvergesInClockOrderExactlyWhen | packages/foundation/src/kv/memory-kv-store.ts:174-195 | in every order under a clock that never goes back: if and only if it has not expired when any other write comes at the same time or later |
| KvFreshness.EventKeepsFloor | packages/foundation/src/kv/dynamo-kv-store.ts:363-387 | writes, reads and sweeps keep the floor under what a live read can show |
| KvFreshness.LiveReadsNeverGoBack | packages/foundation/src/kv/memory-kv-store.ts:174-195 | in all three adapters, with a clock that never goes back and sweeps anywhere, the expiries shown by successive live reads never go down |
| KvRows.StepKeepsVersionsPositive | packages/foundation/src/kv/store-types.ts:97-105 | no step of any adapter leaves a row below version one |
| KvContract.WrittenIsShownExactlyUntil | packages/foundation/src/kv/memory-kv-store.ts:60-65 | after a put, create-once or compare-and-set in any adapter a read shows the record if and only if its instant is within the expiry: an absolute one, else the clock's whole seconds plus the relative one, else for ever |
| KvContract.FreshWriteIsShownExactlyUntil | packages/foundation/src/kv/postgres-kv-store.ts:274-299 | likewise after a freshness write |
| KvContract.CountedIsShownExactlyUntil | packages/foundation/src/kv/dynamo-kv-store.ts:393-430 | likewise after an increment, which keeps an expiry that is there |
| KvContract.WrittenReadsBack | packages/foundation/src/kv/store-types.ts:97-100 | the record a write answers with is the one later reads show, and holds the value passed |
| KvContract.CountedReadsBack | packages/foundation/src/kv/dynamo-kv-store.ts:393-430 | an increment's total is what stood there plus the difference, what later reads show, and all that has changed of the value |
| KvContract.FirstCountIsTheDifference | packages/foundation/src/kv/memory-kv-store.ts:201-222 | a field that is not there counts from zero |
| KvContract.FirstVersionIsOne | packages/foundation/src/kv/store-types.ts:28-33 | the first record under a key has version 1 |
| KvContract.RefusalChangesNothing | packages/foundation/src/kv/store-types.ts:97-100 | a call that does not write and does not delete leaves the row as it was |
| KvContract.WrittenIsListedExactlyWhen | packages/foundation/src/kv/memory-kv-store.ts:244-254 | a written record is listed under its index value and no other, as long as it is shown |
| KvContract.CreateOnceAppliesExactlyWhen | packages/foundation/src/kv/postgres-kv-store.ts:173-206 | create-once applies if and only if no record is shown, in Postgres none was a millisecond ago; otherwise it answers what a read shows |
| KvContract.SwapAppliesExactlyWhen | packages/foundation/src/kv/dynamo-kv-store.ts:325-357 | compare-and-set applies if and only if a read shows the version named, in DynamoDB a read of expired records as well |
| KvContract.FresherAppliesExactlyWhen | packages/foundation/src/kv/dynamo-kv-store.ts:363-387 | a freshness write applies if and only if what a read shows expires earlier or never |
| KvContract.DeletesExactlyWhen | packages/foundation/src/kv/memory-kv-store.ts:228-238 | a delete removes the record, expired or not, if and only if there is one of the version asked for |
| KvContract.CountsExactlyWhen | packages/foundation/src/kv/postgres-kv-store.ts:305-339 | an increment goes through if and only if the name is an identifier and, outside memory, the field counts |
| KvContract.FieldNamesGrow | packages/foundation/src/kv/store-types.ts:64 | a field name is a letter, or a field name followed by a letter, a digit or an underscore |
| KvRows.VersionBumpsByOneExactlyWhen | packages/foundation/src/kv/store-types.ts:28-33 | an applied write bumps the version by exactly one if and only if it is not a freshness write over a row outside Postgres nor an in-memory compare-and-set on absence over one; those leave version 1 |
| KvRows.StaleDeleteHitsExactlyWhen | packages/foundation/src/kv/memory-kv-store.ts:14-19 | a delete guarded by the version an applied write replaced removes the new record if and only if that version was 1 and the write was one of these |
| KvRows.ExpiredHolderDeletesItsSuccessor | packages/foundation/src/kv/memory-kv-store.ts:145-168 | a concrete in-memory lock: expired, taken by compare-and-set on absence, deleted by the old holder |
| KvRows.Update | packages/foundation/src/kv/memory-kv-store.ts:228-238 | writing one key changes no other key |
| MemoryKvStores.MemoryKvStore.Get | packages/foundation/src/kv/memory-kv-store.ts:94-104 | what the reference step says, the map unchanged |
| MemoryKvStores.MemoryKvStore.Put | packages/foundation/src/kv/memory-kv-store.ts:110-116 | the whole map after the call is the reference step's |
| MemoryKvStores.MemoryKvStore.PutIfAbsent | packages/foundation/src/kv/memory-kv-store.ts:122-139 | likewise: live records kept, expired ones replaced with the version bumped |
| MemoryKvStores.MemoryKvStore.CompareAndSet | packages/foundation/src/kv/memory-kv-store.ts:145-168 | likewise: an expired entry counts as version 0 and restarts at 1 |
| MemoryKvStores.MemoryKvStore.PutIfFresher | packages/foundation/src/kv/memory-kv-store.ts:174-195 | likewise: only a later expiry replaces a live entry |
| MemoryKvStores.MemoryKvStore.Increment | packages/foundation/src/kv/memory-kv-store.ts:201-222 | likewise: the expiry is set once, a text that is no number turns into not-a-number |
| MemoryKvStores.MemoryKvStore.Delete | packages/foundation/src/kv/memory-kv-store.ts:228-238 | likewise, for every clock reading |
| MemoryKvStores.MemoryKvStore.QueryByIndex | packages/foundation/src/kv/memory-kv-store.ts:244-254 | the loop collects exactly the live entries under the index value |
| PostgresKvStores.RowsRoundTrip | packages/foundation/src/kv/postgres-kv-store.ts:80-102 | an expiry in seconds survives the way through the timestamp column |
| PostgresKvStores.OneRowChanges | packages/foundation/src/kv/postgres-kv-store.ts:150-167 | a statement on one primary key leaves every other key and namespace alone |
| PostgresKvStores.PostgresKvStore.Get | packages/foundation/src/kv/postgres-kv-store.ts:124-144 | the row-level step on this namespace, the table unchanged |
| PostgresKvStores.PostgresKvStore.Put | packages/foundation/src/kv/postgres-kv-store.ts:150-167 | the row-level step on this namespace, nothing in any other |
| PostgresKvStores.PostgresKvStore.PutIfAbsent | packages/foundation/src/kv/postgres-kv-store.ts:173-206 | likewise: insert, or take over only what is strictly past |
| PostgresKvStores.PostgresKvStore.CompareAndSet | packages/foundation/src/kv/postgres-kv-store.ts:212-268 | likewise: zero means create or take over, else version and liveness must hold |
| PostgresKvStores.PostgresKvStore.PutIfFresher | packages/foundation/src/kv/postgres-kv-store.ts:274-299 | likewise: only a later expiry, or a row without one, is replaced |
| PostgresKvStores.PostgresKvStore.Increment | packages/foundation/src/kv/postgres-kv-store.ts:305-339 | likewise: the expiry is set once, the version bumped |
| PostgresKvStores.PostgresKvStore.Delete | packages/foundation/src/kv/postgres-kv-store.ts:345-358 | likewise: with a guard only the row of that version goes |
| PostgresKvStores.PostgresKvStore.QueryByIndex | packages/foundation/src/kv/postgres-kv-store.ts:364-375 | exactly the live rows of this namespace under the index value |
| PostgresKvStores.KvEntries.SweepExpired | packages/foundation/src/kv/postgres-kv-store.ts:391-402 | each namespace loses exactly its dead rows, and the count of removed rows is returned |
| DynamoKvStores.Layout.ItemRoundTrip | packages/foundation/src/kv/dynamo-kv-store.ts:151-193 | an encoded item reads back as the record written, for every attribute layout |
| DynamoKvStores.KeysStayInTheirNamespace | packages/foundation/src/kv/dynamo-kv-store.ts:124-136 | with one separator, keys that do not contain it never share a partition key across namespaces |
| DynamoKvStores.NamespacesAreDisjointExactlyWhen | packages/foundation/src/kv/dynamo-kv-store.ts:124-136 | two layouts give no two accepted keys the same partition key if and only if neither one's prefix with its separator is the other's followed by a key the other accepts |
| DynamoKvStores.OneSeparatorIsEnough | packages/foundation/src/kv/dynamo-kv-store.ts:51-62 | with one separator that neither layout allows in keys, that is if and only if the prefixes differ |
| DynamoKvStores.NamespacesThatShareAKey | packages/foundation/src/kv/dynamo-kv-store.ts:51-62 | two concrete pairs of layouts with different prefixes whose accepted keys collide: different separators, and the separator allowed in keys |
| DynamoKvStores.DynamoKvStore.Get | packages/foundation/src/kv/dynamo-kv-store.ts:243-254 | the row-level step through item encoding and decoding, or refusal of the key |
| DynamoKvStores.DynamoKvStore.Put | packages/foundation/src/kv/dynamo-kv-store.ts:260-267 | the row-level step on this key, no other item changed |
| DynamoKvStores.DynamoKvStore.PutIfAbsent | packages/foundation/src/kv/dynamo-kv-store.ts:273-319 | run alone, conditional create, consistent read and version-guarded takeover are the one row-level step |
| DynamoKvStores.DynamoKvStore.CompareAndSet | packages/foundation/src/kv/dynamo-kv-store.ts:325-357 | likewise: absence or equality of the version, no expiry test |
| DynamoKvStores.DynamoKvStore.PutIfFresher | packages/foundation/src/kv/dynamo-kv-store.ts:363-387 | likewise: the time-to-live attribute missing or earlier |
| DynamoKvStores.DynamoKvStore.Increment | packages/foundation/src/kv/dynamo-kv-store.ts:393-430 | the row-level step (ADD on the field and the version, the expiry set only if missing) if and only if the field is not one of the layout's own attributes or the call is refused for its name or key; on the expiry attribute a call without expiry moves the expiry, every other attribute of the layout is refused |
| DynamoKvStores.AddFollowsRow | packages/foundation/src/kv/dynamo-kv-store.ts:393-430 | the update expression applied to an item is the row-level add |
| DynamoKvStores.ExpireByIncrement | packages/foundation/src/kv/dynamo-kv-store.ts:399-413 | incrementing the expiry attribute by its name expires a live record, its value unchanged |
| DynamoKvStores.DynamoKvStore.Delete | packages/foundation/src/kv/dynamo-kv-store.ts:436-460 | likewise: with a guard only the item of that version goes |
| DynamoKvStores.DynamoKvStore.QueryByIndex | packages/foundation/src/kv/dynamo-kv-store.ts:466-497 | for every table: the live items under the index value whose partition key has this namespace's prefix, which are its live records under that value and nothing more if and only if no such item has a key the namespace refuses |
| DynamoKvStores.PutThenQuery | packages/foundation/src/kv/dynamo-kv-store.ts:466-497 | a record put with an index key is listed by a query of that key and no other, as long as it lives |
| DynamoKvStores.KeptDropsOnlyTheIndexKey | packages/foundation/src/kv/dynamo-kv-store.ts:170-174 | without an index in the layout the index key alone is dropped |
| DynamoKvStores.QueriesOnlyItsOwnExactlyWhen | packages/foundation/src/kv/dynamo-kv-store.ts:484-493 | of two namespaces that share no key, one's queries list nothing the other has written, whatever the two have written, if and only if the other's prefix does not begin with its own |
| DynamoKvStores.StaysOutsideExactlyWhen | packages/foundation/src/kv/dynamo-kv-store.ts:484-493 | no accepted key of one namespace falls under the other's prefix if and only if its own prefix does not and the other's is not one of its keys |
| DynamoKvStores.NestedNamespaceIsListed | packages/foundation/src/kv/dynamo-kv-store.ts:484-493 | a concrete pair of namespaces that share no key: a query of the one lists what the other wrote, under a key the one refuses |
| DynamoKvStores.OthersDoNotDisturb | packages/foundation/src/kv/dynamo-kv-store.ts:124-131 | a write or delete of a namespace that shares no key leaves this one's records as they are |
| DynamoKvStores.RowStepIsStoreStep | packages/foundation/src/kv/dynamo-kv-store.ts:243-460 | what a call does to its own key is the step of the whole store, so the comparisons of whole runs apply |
| TokenBucket.RefillComposes | packages/foundation/src/rate-limit/token-bucket.ts:83-92 | refilling to one instant and from there to another is refilling to the other |
| TokenBucket.DeniedRetryAfter | packages/foundation/src/rate-limit/token-bucket.ts:117-118 | the nested ceilings and the max with 1 are one ceiling of seconds |
| TokenBucket.RemainingIsWhatStillFits | packages/foundation/src/rate-limit/token-bucket.ts:98-106 | an allowed call takes exactly its cost, and its remaining is the largest whole cost that would be allowed next in the same millisecond |
| TokenBucket.DeniedTakesNothing | packages/foundation/src/rate-limit/token-bucket.ts:112-128 | a denied call takes nothing and has nothing remaining |
| TokenBucket.PeekTellsWhatFits | packages/foundation/src/rate-limit/token-bucket.ts:139-161 | a peek's remaining is the largest whole cost that would be allowed at that instant, its allowed that a cost of 1 would be |
| TokenBucket.KeptAMinutePastFull | packages/foundation/src/rate-limit/token-bucket.ts:170-179 | a written bucket is kept for a minute longer than it takes, in whole seconds, to fill up |
| TokenBucket.RetryAfterIsLeast | packages/foundation/src/rate-limit/token-bucket.ts:112-128 | for a cost within capacity, waiting n whole seconds with no other traffic suffices if and only if n is at least retryAfter |
| TokenBucket.ResetAtIsFirstFull | packages/foundation/src/rate-limit/token-bucket.ts:139-161 | a denial's or peek's resetAt is the first millisecond at which the bucket is full |
| TokenBucket.AllowedResetAtIsFullExactlyWhen | packages/foundation/src/rate-limit/token-bucket.ts:93-110 | an allowed call's resetAt is the one a peek before it shows, and the bucket is full by then if and only if the cost fits into the rounding; never for a cost of a millisecond's earnings or more |
| TokenBucket.TokensStayWithin | packages/foundation/src/rate-limit/token-bucket.ts:75-129 | over any run tokens stay within 0 and the capacity |
| TokenBucket.CostAboveCapacityIsNeverAllowed | packages/foundation/src/rate-limit/token-bucket.ts:98-110 | a cost above the capacity is never allowed |
| TokenBucket.SpentPlusLeft | packages/foundation/src/rate-limit/token-bucket.ts:75-129 | what a run spends and leaves never exceeds what stood there plus what was earned |
| TokenBucket.WindowBound | packages/foundation/src/rate-limit/token-bucket.ts:75-129 | between any two calls of any run the allowed cost is at most capacity + refillRate * (t2 - t1) / 1000 |
| TokenBucket.ClockGoingBackEarnsTwice | packages/foundation/src/rate-limit/token-bucket.ts:83-92 | a denied call under an earlier clock makes the time in between count twice |
| TokenBucket.AbsentIsFull | packages/foundation/src/rate-limit/token-bucket.ts:83-84 | an absent bucket is indistinguishable from the fully refilled one |
| TokenBucket.IndistinctAnswerAlike | packages/foundation/src/rate-limit/token-bucket.ts:75-161 | indistinct buckets answer every later consume and peek alike and stay indistinct |
| TokenBucket.DenialLeavesNoTrace | packages/foundation/src/rate-limit/token-bucket.ts:112-116 | the state a denial writes is indistinct from the state it read |
| TokenBucket.ExpiredBucketIsFull | packages/foundation/src/rate-limit/token-bucket.ts:170-179 | from its computed expiry on a stored bucket is indistinct from none, even when the expiry comes from a second, later clock reading |
| TokenBucket.DropsChangeNoAnswer | packages/foundation/src/rate-limit/dynamo-limiter.ts:244-252 | dropping due buckets anywhere in a run changes no answer |
| TokenBucket.DenialsChangeNoOtherAnswer | packages/foundation/src/rate-limit/token-bucket.ts:75-129 | deleting every denied call leaves every other answer as it was |
| TokenBucket.OnlyAllowedCallsMatter | packages/foundation/src/rate-limit/token-bucket.ts:170-179 | both together: the allowed calls answer as if nothing else had been asked and nothing dropped |
| MemoryLimiter.MemoryTokenBucketLimiter.Consume | packages/foundation/src/rate-limit/memory-limiter.ts:74-108 | one bucket step on the key, every other bucket untouched, refusals change nothing |
| MemoryLimiter.MemoryTokenBucketLimiter.Peek | packages/foundation/src/rate-limit/memory-limiter.ts:117-123 | the peek of the key's bucket, nothing changed |
| MemoryLimiter.MemoryTokenBucketLimiter.Reset | packages/foundation/src/rate-limit/memory-limiter.ts:131-134 | the key's bucket is gone, the others are not |
| MemoryLimiter.UnknownKeysAre | packages/foundation/src/rate-limit/memory-limiter.ts:136-138 | the unknown keys are "unknown" and those that end in it behind a colon |
| SecretCacheSpec.RunsAreFaithful | packages/foundation/src/secrets/cache.ts:63-142 | any run: at most maxEntries secrets, ordered by the last touch, each the one last set under its key |
| SecretCacheSpec.GetReturnsLastSet | packages/foundation/src/secrets/cache.ts:63-77 | a successful get returns the bytes last set under the key, within the time to live |
| SecretCacheSpec.SetLosesTheFront | packages/foundation/src/secrets/cache.ts:132-142 | only a full cache loses a secret to another key, and it is the front one |
| SecretCacheSpec.VictimIsLeastRecentlyTouched | packages/foundation/src/secrets/cache.ts:132-142 | the victim was touched before every other secret in the cache |
| SecretCacheSpec.HeldAfterExactlyWhen | packages/foundation/src/secrets/cache.ts:63-142 | which keys are held after each call, told from those held before |
| SecretCacheSpec.GetHitsExactlyWhen | packages/foundation/src/secrets/cache.ts:63-77 | a get hits if and only if the key is held and has not expired |
| SecretCacheSpec.ShelteredIsHeld | packages/foundation/src/secrets/cache.ts:132-142 | in any run a secret that was set, not invalidated, cleared or asked for after its time since, and was never overtaken by as many other keys as the cache holds, is held |
| SecretCacheSpec.ShelteredGetHits | packages/foundation/src/secrets/cache.ts:63-77 | and a get within its time to live returns the bytes last set |
| SecretCaches.SecretCache.Get | packages/foundation/src/secrets/cache.ts:63-77 | the recency list steps as specified, a hit returns an owned buffer with the bytes, an expired entry is zeroed; and whatever buffers are shared, the entries are kept and a hit is the buffer held under the key |
| SecretCaches.SecretCache.Set | packages/foundation/src/secrets/cache.ts:84-94 | whatever buffer is passed, exactly the buffers replaced and pushed out are zeroed, so the bytes passed are stored if and only if the buffer is none of these or was all zeros; a buffer held under no other key gives the recency list as specified |
| SecretCaches.SecretCache.Evict | packages/foundation/src/secrets/cache.ts:122-130 | one entry leaves, its buffer all zeros, every other buffer keeps its bytes; with unshared buffers the list loses exactly that slot |
| SecretCaches.SecretCache.EvictOverflow | packages/foundation/src/secrets/cache.ts:132-142 | the loop drops from the front until the limit holds |
| SecretCaches.SecretCache.Invalidate | packages/foundation/src/secrets/cache.ts:100-102 | removes the key, if there, and says whether it was |
| SecretCaches.SecretCache.Clear | packages/foundation/src/secrets/cache.ts:107-112 | nothing is left and every buffer owned before is all zeros |
| SecretCaches.RefreshedSecretIsZeroed | packages/foundation/src/secrets/cache.ts:63-94 | setting a key to the buffer a get returned: the next get returns that buffer, all zeros |
| SecretCaches.ShareBuffer | packages/foundation/src/secrets/cache.ts:84-94 | setting a second key to a buffer already held, with room for both, puts it under both |
| SecretCaches.SharedBufferIsZeroed | packages/foundation/src/secrets/cache.ts:100-130 | and invalidating the one key zeroes what the other still serves |
| Cidr.Ipv4InCidrIsQuotientAgreement | packages/foundation/src/net/cidr.ts:41-46 | membership is agreement on the quotient by 2^(32 - prefix), despite signed 32-bit shifts |
| Cidr.OnesShiftedOut | packages/foundation/src/net/cidr.ts:44 | the shifted mask of ones is 2^32 - 2^k |
| Cidr.Ipv6InCidr | packages/foundation/src/net/cidr.ts:178-200 | the byte loop with its partial mask decides agreement on the quotient by 2^(128 - prefix) |
| Cidr.Ipv6MatchesIsQuotientAgreement | packages/foundation/src/net/cidr.ts:178-200 | matching whole bytes and masked bits is agreement on the quotient |
| Cidr.UpperMaskKeeps | packages/foundation/src/net/cidr.ts:193-194 | the partial mask keeps exactly the upper bits of a byte |
| Cidr.ShiftDropsBytes | packages/foundation/src/net/cidr.ts:185-190 | shifting out trailing bytes of the big-endian number leaves the leading bytes |
| Cidr.Ipv4BlocksNestOrPart | packages/foundation/src/net/cidr.ts:41-46 | two IPv4 blocks that share an address are nested |
| Cidr.Ipv6BlocksNestOrPart | packages/foundation/src/net/cidr.ts:178-200 | two IPv6 blocks that share an address are nested |
| Cidr.MappedMembership | packages/foundation/src/net/cidr.ts:178-200 | IPv4 membership at /p is membership of the IPv4-mapped addresses at /(96 + p) |
| Ipv4Text.ParseIpv4 | packages/foundation/src/net/cidr.ts:18-34 | accepts exactly the canonical dotted quads, each as the address whose text it is |
| Ipv4Text.ReadOctets | packages/foundation/src/net/cidr.ts:22-31 | the loop over the parts stops at the first that is no octet, else holds the big-endian number of all four |
| Ipv4Text.PrintIsInjective | packages/foundation/src/net/cidr.ts:18-34 | different addresses have different texts |
| Ipv4Text.ShiftInByte | packages/foundation/src/net/cidr.ts:30 | shift and or in signed 32-bit arithmetic append one byte to the unsigned value |
| Ipv6Text.ParseOfRender | packages/foundation/src/net/cidr.ts:86-171 | for every well-formed text (full or with ::, any letter case, leading zeros, dotted tail, zone) the parser returns the 16 bytes it denotes |
| Ipv6Text.ParseIpv6 | packages/foundation/src/net/cidr.ts:86-108 | the parser as it runs returns what the parser as a function says, 16 bytes whenever it succeeds |
| Ipv6Text.ReadHalves | packages/foundation/src/net/cidr.ts:110-130 | recognising and taking off the dotted tail |
| Ipv6Text.PlaceGroups | packages/foundation/src/net/cidr.ts:132-141 | the group count and the filler for :: |
| Ipv6Text.WriteAll | packages/foundation/src/net/cidr.ts:141-170 | on every input the writes stay within the 16 bytes and fill them exactly |
| Ipv6Text.WriteGroup | packages/foundation/src/net/cidr.ts:144-150 | one group becomes its two bytes, high byte first, or nothing is written |
| Ipv6Text.ReadDottedTail | packages/foundation/src/net/cidr.ts:122-129 | four integers from 0 to 255, or failure |
| Ipv6Text.ParseOfMapped | packages/foundation/src/net/cidr.ts:86-171 | the text ::ffff: followed by an IPv4 text reads as the IPv4-mapped address |
| Ipv6Accepts.AcceptsExactlyWhen | packages/foundation/src/net/cidr.ts:86-171 | the parser accepts a text, and as these bytes, if and only if what stands before its zone spells a loosely formed address: eight groups with or without a dotted tail, or at most eight around the first ::, where further colons do not count |
| Ipv6Accepts.QuadBeforeThePairMovesBehind | packages/foundation/src/net/cidr.ts:114-121 | a dotted quad before :: reads as the same quad behind it |
| Ipv6Accepts.ZoneBeginsAtPercent | packages/foundation/src/net/cidr.ts:87-89 | the zone begins at the first percent sign |
| Ipv6Accepts.GroupsAreHex | packages/foundation/src/net/cidr.ts:145 | a group is one to four hexadecimal digits |
| Text.HexDigitsCount | packages/foundation/src/net/cidr.ts:146 | hexadecimal digits count from zero to fifteen, in either case |
| Ulid.EncodeTime | packages/foundation/src/audit/ulid.ts:30-43 | out-of-range times fail, others give ten digits that decode to the whole millisecond |
| Ulid.EncodeDigits | packages/foundation/src/audit/ulid.ts:34-41 | the countdown loop writes the base-32 digits and leaves nothing over |
| Ulid.EncodeRandom | packages/foundation/src/audit/ulid.ts:45-56 | one digit per byte, failure on too few bytes |
| Ulid.Ulid | packages/foundation/src/audit/ulid.ts:62-64 | time digits followed by random digits |
| Ulid.DecodeOfDigits | packages/foundation/src/audit/ulid.ts:34-41 | decoding inverts encoding |
| Ulid.DigitsOfDecode | packages/foundation/src/audit/ulid.ts:34-41 | and encoding inverts decoding on every text of digits |
| Ulid.OrderOfDecode | packages/foundation/src/audit/ulid.ts:25-41 | lexicographic order of equally long texts is the order of their numbers |
| Ulid.EarlierSortsFirst | packages/foundation/src/audit/ulid.ts:62-64 | an earlier millisecond gives a smaller identifier whatever the random suffixes |
| Ulid.AlphabetIsCrockfords | packages/foundation/src/audit/ulid.ts:24-25 | the alphabet is the ten digits and the capital letters without I, L, O and U |
| Ulid.IdentifierShape | packages/foundation/src/audit/ulid.ts:27-33 | 26 characters, ten of them for a time of at most 48 bits |
| AuditMetadata.EnforceMetadataSize | packages/foundation/src/audit/audit-log.ts:219-266 | within the cap unchanged; rejected or truncated beyond it; kept entries are original ones, fit if and only if the cap is at least 2, and no choice of keys that fits keeps more |
| AuditMetadata.DropLargest | packages/foundation/src/audit/audit-log.ts:238-265 | the loop drops the fewest largest entries after which the rest fits, or all of them |
| AuditMetadata.SizeIs | packages/foundation/src/audit/audit-log.ts:223-224 | the encoded size is 2 bytes, the items and the commas |
| AuditMetadata.EncodedText | packages/foundation/src/audit/audit-log.ts:223-224 | the encoded text is braces around the items, a colon inside each and commas between them |
| AuditMetadata.FlagTexts | packages/foundation/src/audit/audit-log.ts:206-208 | the flag's key and value are the JSON texts of its name and of true |
| AuditMetadata.LargestFirstSorts | packages/foundation/src/audit/audit-log.ts:238-243 | the sort is a permutation in descending size |
| AuditMetadata.SortIsStable | packages/foundation/src/audit/audit-log.ts:243 | entries of equal size keep their order |
| AuditMetadata.RebuildIsSuffix | packages/foundation/src/audit/audit-log.ts:250-257 | rebuilding after dropping the first keys gives the rest, unchanged |
| AuditMetadata.KeptUnchanged | packages/foundation/src/audit/audit-log.ts:259-265 | kept entries are a sub-multiset of the original |
| AuditMetadata.TruncatedFitsExactlyWhen | packages/foundation/src/audit/audit-log.ts:259-265 | the truncated metadata fits if and only if the cap is at least 2 |
| AuditMetadata.SmallestTotal | packages/foundation/src/audit/audit-log.ts:259-263 | exchange argument: any m entries weigh at least as much as the m smallest |
| AuditMetadata.KeepsAsManyAsAnyChoice | packages/foundation/src/audit/audit-log.ts:236-265 | truncation keeps as many keys as any subset that fits |
| AuditMetadata.BuildMetadata | packages/foundation/src/audit/audit-log.ts:172-208 | an error, the metadata itself, or the truncated metadata with the flag set; in the last case within the cap if and only if a condition on metadata and cap holds, and at most the cap plus 26 bytes if and only if the cap is at least 1 |
| AuditMetadata.FlagKeepsTheRest | packages/foundation/src/audit/audit-log.ts:206-208 | setting the flag changes no other key |
| AuditMetadata.PersistedFitsExactlyWhen | packages/foundation/src/audit/audit-log.ts:206-208 | the persisted metadata is within the cap if and only if the flag alone fits or its key was among the kept ones, and leaving room for what the flag adds would drop no more entries |
| AuditMetadata.PersistedFitsWithoutFlagKey | packages/foundation/src/audit/audit-log.ts:206-208 | without the flag's key among the metadata: if and only if the cap is at least 27 and a cap smaller by 26 would drop no more |
| AuditMetadata.DropCountIsFirstFit | packages/foundation/src/audit/audit-log.ts:259-263 | the number of entries that go is the first position from which the sorted entries fit, and no other number is |
| AuditMetadata.PersistedSizeBound | packages/foundation/src/audit/audit-log.ts:206-208 | the flag adds at most 26 bytes over the cap if and only if the cap is positive |
| AuditMetadata.FlagCanExceedTheCap | packages/foundation/src/audit/audit-log.ts:206-208 | a concrete metadata whose persisted form is 32786 bytes under the default cap of 32768 |
| EnclosingObject.FindOpening | packages/foundation-cdk/lib/dashboards/house-dashboard.ts:40-54 | the backward scan finds the brace still open at the placeholder, or there is none |
| EnclosingObject.FindClosing | packages/foundation-cdk/lib/dashboards/house-dashboard.ts:58-72 | the forward scan finds the matching brace, or it is never closed |
| EnclosingObject.InnermostFound | packages/foundation-cdk/lib/dashboards/house-dashboard.ts:40-72 | together they find the block inside every other block around the placeholder |
| EnclosingObject.PlaceholderGoes | packages/foundation-cdk/lib/dashboards/house-dashboard.ts:40-97 | the whole placeholder lies inside the removed block |
| EnclosingObject.CutBeforeComma | packages/foundation-cdk/lib/dashboards/house-dashboard.ts:76-87 | an element with a comma behind it goes with that comma and the blanks around it |
| EnclosingObject.CutAfterComma | packages/foundation-cdk/lib/dashboards/house-dashboard.ts:88-95 | a last element goes with the comma before it |
| EnclosingObject.CutAlone | packages/foundation-cdk/lib/dashboards/house-dashboard.ts:76-97 | without a comma on either side only the block goes |
| EnclosingObject.SpacesAreWhiteSpace | packages/foundation-cdk/lib/dashboards/house-dashboard.ts:83-90 | blanks are the white space and line terminators of ECMAScript |
| EnclosingObject.RemoveOnce | packages/foundation-cdk/lib/dashboards/house-dashboard.ts:36-97 | one turn of the loop removes the innermost block or leaves nothing to do |
| EnclosingObject.RemoveEnclosingObject | packages/foundation-cdk/lib/dashboards/house-dashboard.ts:32-100 | the loop is a run of at most 100 such passes, fewer only once nothing is left to do |
| EnclosingObject.PassKeepsBalance | packages/foundation-cdk/lib/dashboards/house-dashboard.ts:97 | every pass makes the text strictly shorter and keeps balanced text balanced |
| EnclosingObject.BalancedIsClosed | packages/foundation-cdk/lib/dashboards/house-dashboard.ts:74 | on balanced text the second safety break is unreachable |
| EnclosingObject.RemovalOnBalancedBody | packages/foundation-cdk/lib/dashboards/house-dashboard.ts:32-100 | on a balanced body the result is balanced, and short of 100 passes a placeholder that remains stands outside every block |
| JsonText.DecodeOfEscape | packages/foundation-cdk/lib/dashboards/house-dashboard.ts:139 | an escaped text reads as the original (section 7 of RFC 8259) |
| DashboardTemplate.InsertedDecodes | packages/foundation-cdk/lib/dashboards/house-dashboard.ts:135-140 | every inserted text reads as a JSON string with the supplied value |
| DashboardTemplate.ReplaceAllIsPlain | packages/foundation-cdk/lib/dashboards/house-dashboard.ts:142 | a replacement without $ is inserted literally |
| DashboardTemplate.PatternsStandFor | packages/foundation-cdk/lib/dashboards/house-dashboard.ts:142 | the four $ patterns stand for a dollar sign, the match, and the texts before and behind it |
| DashboardTemplate.SoleOccurrenceReplaced | packages/foundation-cdk/lib/dashboards/house-dashboard.ts:142 | a sole occurrence is replaced where it stands by the expanded replacement |
| DashboardTemplate.InsertedAsIsExactlyWhen | packages/foundation-cdk/lib/dashboards/house-dashboard.ts:142 | a replacement is inserted as it stands if and only if it contains none of the four $ patterns |
| DashboardTemplate.ValueArrivesExactlyWhen | packages/foundation-cdk/lib/dashboards/house-dashboard.ts:139-142 | in terms of the value: it is inserted as it stands, and reads back as itself, if and only if no $ in it is followed by &, a backquote, an apostrophe or a $ that opens no placeholder |
| DashboardTemplate.ReplaceIsFill | packages/foundation-cdk/lib/dashboards/house-dashboard.ts:134-143 | one variable fills exactly its own placeholders |
| DashboardTemplate.SequentialIsSimultaneous | packages/foundation-cdk/lib/dashboards/house-dashboard.ts:134-143 | for values without such a pattern that do not end in $, the loop over the variables is simultaneous substitution |
| DashboardTemplate.SimultaneousExactlyWhen | packages/foundation-cdk/lib/dashboards/house-dashboard.ts:134-143 | a value, among others of that kind, leaves every substitution simultaneous if and only if it has no such pattern and does not end in $ |
| DashboardTemplate.OrderDoesNotMatter | packages/foundation-cdk/lib/dashboards/house-dashboard.ts:134-143 | in any order of such variables |
| DashboardTemplate.LeftoversAreHoles | packages/foundation-cdk/lib/dashboards/house-dashboard.ts:145-148 | the leftover check finds exactly the named placeholders |
| DashboardTemplate.RejectsExactlyUndeclared | packages/foundation-cdk/lib/dashboards/house-dashboard.ts:145-153 | after substitution of such values it finds something if and only if the body has a named placeholder no variable fills |
| DashboardTemplate.DoubledDollarIsHalved | packages/foundation-cdk/lib/dashboards/house-dashboard.ts:142 | a concrete value of two dollar signs that arrives as one |
| DashboardTemplate.LoneDollarMakesOrderMatter | packages/foundation-cdk/lib/dashboards/house-dashboard.ts:134-143 | a value of one dollar sign with which two orders give different texts |
| DashboardTemplate.OtherOrderLeavesPlaceholder | packages/foundation-cdk/lib/dashboards/house-dashboard.ts:134-143 | the order that fills the other variable first leaves a placeholder which the end of the value completes |
| DashboardTemplate.Substitute | packages/foundation-cdk/lib/dashboards/house-dashboard.ts:112-164 | the outcome is a missing-variable error naming exactly the missing ones, or judges the text after substitution: handed out only if it is JSON and no named placeholder occurs anywhere in it, unresolved if and only if one does, naming exactly those that do, and invalid only where none does |
| DashboardTemplate.FinishIsJudged | packages/foundation-cdk/lib/dashboards/house-dashboard.ts:145-163 | the outcome of the two last checks, told by the occurrences of named placeholders in the text and the parser's verdict |
| DashboardTemplate.LeftoversAreAllThatOccur | packages/foundation-cdk/lib/dashboards/house-dashboard.ts:145-148 | in any text whatever the check finds exactly the named placeholders that occur anywhere in it |
| DashboardTemplate.FilledTemplateGoesThrough | packages/foundation-cdk/lib/dashboards/house-dashboard.ts:134-163 | a template all of whose named placeholders are supplied goes through with all values filled in at once, if that is JSON |
| DashboardTemplate.SuppliedIsMapped | packages/foundation-cdk/lib/dashboards/house-dashboard.ts:118-121 | a variable counts as supplied if and only if it is filled in |
| DashboardTemplate.MissingAreTheUnsupplied | packages/foundation-cdk/lib/dashboards/house-dashboard.ts:118-121 | the error names exactly the required variables not supplied |
| DashboardTemplate.StagesKeepBalance | packages/foundation-cdk/lib/dashboards/house-dashboard.ts:126-131 | removing absent optional variables keeps a balanced body balanced |

## Left out

- DynamoKvStores.DynamoKvStore.Increment: takes the layout's sort key and index attributes as key attributes of type text, so that DynamoDB refuses to add to them; a table laid out otherwise is not modelled.
- SecretCacheSpec.ShelteredIsHeld: one direction; a secret overtaken by keys that were since invalidated may still be held.
- SecretCaches.SecretCache.Set: gives the recency list as specified for a buffer held under no other key; for a shared buffer it says which entries stay and which buffers are zeroed, and the list of secrets follows from the buffers.
- PutIfAbsentProtocol.TakeoversAreUnique: speaks of runs of create-once calls only and of items that carry a version; `LiveOverwrittenOnlyAfterOwnReset` covers other writers and removals.
- LimiterProtocol.ConcurrentWindowBound: assumes an orderly run without reset: with a clock before the refill time it is false (`TokenBucket.ClockGoingBackEarnsTwice`), and the rest of the condition is exact for one pair of calls and for one stale read.
- KvOptimistic.FinalValueComposesAppliedChanges: assumes writes without expiry, because an expired record is absent to the next client; `NoUpdateIsLost` covers expiries.
- KvSweep.SweepsGoUnnoticed: leaves versions out of the comparison, so it excludes compare-and-set on a live row with a version other than 0 and guarded delete, whose answers depend on versions a sweep restarts.
- EnclosingObject.RemovalOnBalancedBody: says nothing more after 100 passes, where the loop gives up.
- DashboardTemplate.SequentialIsSimultaneous: assumes a body that is made of placeholders and text in which a `$` neither ends a piece nor stands before a brace; other bodies may form placeholders across pieces.
- The adapters' classes run one call at a time; only `PutIfAbsentProtocol`, `LimiterProtocol` and `KvOptimistic` interleave calls, on one key.
- Eventual consistency of plain DynamoDB reads in the key-value store and of its secondary index; `LimiterProtocol` has stale reads.
- Retries after a lost acknowledgement (`packages/foundation/src/_internal/retry.ts:26-36`): a conditional put that went through is sent again, fails its own condition and reports that it was not applied, and an increment may add twice; `PutIfAbsentProtocol.SuccessMeansWritten` and `PutIfAbsentProtocol.ExactlyOneTakeoverWins` hold for requests sent once.
- Sort keys that differ between namespaces of one DynamoDB table, which keep items with equal partition keys apart.
- The order of index query results, which each backend leaves to itself.
- Text fields that read as numbers in an increment, and fractional increments.
- Floating-point rounding in the token arithmetic, non-finite rows that read as absent buckets, and configurations that change between calls on one bucket.
- The limiters' `reset`, and the time-to-live removal of a bucket row, beside concurrent calls; a guarded write that went through but was reported as failed, which moves the row while its answer counts as not committed; sleeping between attempts, and logging.
- The unknown-key strategy `allow`, which takes the path of `shared-bucket`.
- The PII filter, schema validation and the other fields of an audit event.
- Integer-like metadata keys, which JavaScript objects list first, and special keys such as `__proto__`.
- A `ulid` time that is not a number, and where the random bytes come from.
- CIDR text with a slash, whose two halves go to the functions modelled here.
- Lone surrogates in template values, which Dafny characters exclude.
- The template files, the dashboard construct, and the JSON parser's verdict, which is a parameter.
- Sessions, identity providers, queues, build scripts and the infrastructure constructs.
