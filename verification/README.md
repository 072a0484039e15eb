# A model of the panmail gateway's hard core

Panmail is an email gateway written in Go. This project models the parts of it
that are easiest to get wrong, and proves what they are for: the token-bucket
rate limiter with reservations, the review queue for held mail, the schema
migration protocol, the log store's paging and truncation, the keyring and its
rotation, signed bounce references, the mail filter's rule engine, the bounce
classifier, the backup's crash-and-retry protocol, the Luhn checksum and the
TTL cache.

`dafny verify dfyconfig.toml` verifies the whole project.

## How it is laid out

| files | what they hold |
|---|---|
| `RateModel`, `RateAccount`, `RateBound`, `RateLives`, `RateRetry`, `RateUndo`, `RateEviction`, `RateSpare`, `RateNumbers`, `RateLimiter` | the limiter's arithmetic and steps on values; one bucket's account; the rate bound over runs, and over every life of a bucket; all-or-nothing and the retry time; what cancelling undoes and how long a reservation waits; eviction, and when it goes unnoticed; all of it in messages per minute and seconds; the limiter as a class whose methods are proved equal to the steps |
| `ReviewModel`, `ReviewSafety`, `ReviewComplete`, `ReviewQueue`, `SqlExpire`, `SqlReview` | reviewers, sweeps and pruning as a state machine; safety of every interleaving; that every decision is carried out; the queue as a class that refines it; the SQL store's three-statement sweep; the machine with that sweep in it |
| `MigrateModel`, `MigrateSafety`, `MigrateRunner`, `MigrateFiles` | instances, the advisory lock, transactions and savepoints as a state machine; exactly-once; one instance as code; the step files and their names |
| `LogStore`, `LogStoreRun`, `Decimal` | keys, pages and tokens; truncation in batches; decimal strings that order like numbers |
| `Keyring`, `Tracking`, `Base64` | the secret format and its rotation; canonical rendering, signatures and bounce references; RFC 4648 |
| `FilterModel`, `FilterMeaning`, `FilterRules`, `FilterScreen`, `FilterEngine`, `StableSort` | messages, conditions, rules; what each condition asks; which rule decides; lazy attachment reading; the loops |
| `Bounce`, `BounceVerdicts`, `Text` | the classifier as string scanning; what each verdict takes; trimming, case and spellings |
| `BackupModel`, `BackupSafety`, `BackupRun` | the output directory one file operation at a time; what interrupted runs keep; the run as code |
| `Luhn`, `TtlCache` | the checksum; the bounded cache against a log of its calls |
| `Prelude` | the option type and the few names several modules share |

## Where the code does not do what it says

Each of these comes with the inputs that fail and with an if-and-only-if that
says exactly when the promise holds.

- The SQL store's sweep selects, updates and reads back in three statements,
  with no transaction around them. Its contract is to return only rows this
  call moved. Two overlapping sweeps both return a row that one of them moved
  (`SqlExpire.OverlappingSweepsBothReport`), so its payload is discarded and
  its expiry announced twice. A prune between the update and the read takes a
  moved row away (`SqlExpire.PruneHidesMovedRow`), and its expiry is announced
  to no one. `SqlExpire.ReportsOwnRowsOnly` says which rows are returned and
  not moved, which are moved and not returned, and that the contract holds
  exactly when there are neither. `ReviewSafety` assumes the contract. Over the
  SQL store all of its promises but one survive any interleaving: only an
  expiry can be discarded or announced more than once
  (`SqlReview.SqlReviewIsSafe`), as two overlapping sweeps of a message do
  (`SqlReview.OverlappingSweepsRepeat`) and one sweep at a time never does
  (`SqlReview.OneSweepAtATimeIsSafe`).
- `manifest.json` is meant to mean that the backup finished. It is created and
  then written, so a run cut off in between leaves an unreadable one, and every
  retry refuses the directory from then on
  (`BackupSafety.TornManifestBlocksRetry`). A run can complete exactly when the
  manifest is absent and the marker is there or none of the run's names is
  (`BackupSafety.CompletesIffReady`).
- With the marker down, a run clears entries it never wrote, if they stand
  under its names: an entry survives every cut-off exactly when it is not one
  of them (`BackupSafety.ResumingClears`). So the options must not change
  between retries.
- The search for the least recently seen bucket uses the empty string for
  "none yet". A walk goes wrong exactly when it meets the empty key before its
  end and that bucket was seen before every other
  (`RateEviction.OldestIsLeastSeen`); every walk is right exactly when the
  empty key is not, among several, the one seen first
  (`RateEviction.EveryWalkIsRight`, `RateEviction.EmptyKeyMisleadsSearch`).
- A cost larger than the capacity is admitted by emptying the bucket, whatever
  is in it. All runs that charge a cost are within the rate bound exactly when
  the capacity could hold the cost (`RateBound.BoundedIffCostFits`); the first
  call of an empty limiter already shows it (`RateBound.FirstCostDecides`).
- Requests for one key in a single `AllowAll` are all assessed before any is
  charged (`RateRetry.DuplicateKeysOverdraw`). An admitted call leaves a bucket
  in debt exactly when the bucket could hold the cost and is billed, over all
  the requests that name it, more than its refilled balance
  (`RateRetry.OverdrawnIffBilledMore`); distinct keys never are
  (`RateRetry.DistinctNeverOverdraw`).
- An idle bucket is dropped with whatever balance it has. A limiter that evicts
  as the code does answers otherwise than one that never evicts once a bucket
  in debt, or one with a burst above rate times the idle time, has gone idle
  (`RateSpare.EvictionIsNoticed`, for every limit, idle time and wait;
  `RateSpare.EvictionForgivesDebt` gives the debt). In every state that can be
  reached, dropping a bucket changes no answer to any calls that follow if and
  only if its balance and the time since would fill it for every limit the key may
  be asked under (`RateSpare.UnnoticedIffSpareAfterRun`).
- Cancelling is said to err on the slow side only
  (`internal/ratelimit/limiter.go`, lines 351 to 355). A reservation made
  before its bucket was evicted or forgotten pays its tokens into the new one,
  which was never charged for them: the new bucket can hand out twice its
  capacity in one instant (`RateLives.CancelledLateHandsOutTwice`). Whatever
  follows stays within what a new bucket is granted if and only if no earlier
  reservation still holds something for its key
  (`RateLives.LivesBoundedIffNothingHeld`).
- A bounce reference verifies exactly when its message id is not empty
  (`Tracking.RefRoundTrips`).
- A NUL inside a field makes another link render alike
  (`Tracking.SeparatorInFieldConfuses`): a rendering, and a signature, belong
  to one link only exactly when none of its fields holds NUL
  (`Tracking.RenderingIsUnique`, `Tracking.SignatureIsOneLinks`). What another
  link or an untrusted report holds does not matter. A bounce reference binds
  its tenant and recipient exactly when its text splits around the message in
  one place (`Tracking.RefBindsExactly`).
- A key whose timestamp has fewer digits than the cutoff survives truncation
  exactly when it is not below the cutoff's leading digits
  (`LogStore.NarrowStampSurvives`). The bounded scan is the full scan exactly
  when the bound reaches every timestamp before the cutoff, for any signs and
  widths (`LogStore.BoundedScanIsFullScan`).
- Paging from the start ends exactly if the page size is positive or there is
  nothing to read (`LogStore.PagingEnds`).

## Model

| member | source | states |
|---|---|---|
| `RateBound.RateBoundOverRuns` | internal/ratelimit/limiter.go:140-268 | in every run of Allow, AllowAll, ReserveAll, Cancel and Forget of other keys, under limits that may change from call to call, with costs the limit of the call could hold and no eviction of the key: uncancelled charges plus balance never exceed the first capacity plus, for every refill, the time since the last one at the rate then in force; the clock may step back |
| `RateBound.RateBoundAtOneLimit` | internal/ratelimit/limiter.go:140-237 | under one limit that grant is the capacity plus the rate times the age of the bucket |
| `RateBound.MeterIsAllowance` | internal/ratelimit/limiter.go:214-237 | the summed grant, read off the calls alone, is that allowance |
| `RateBound.RateBoundByClock` | internal/ratelimit/limiter.go:214-237 | with a clock that does not step back, uncancelled charges are at most capacity + rate × elapsed − balance |
| `RateNumbers.BoundPerMinute` | internal/ratelimit/limiter.go:17-37 | in every such run, in the numbers of the configuration: uncancelled charges are at most the burst (a minute's worth without one) plus perMinute for every sixty seconds since the first call, less the balance |
| `RateNumbers.AllowInNumbers` | internal/ratelimit/limiter.go:101-268 | a call is admitted exactly when the balance (last balance plus perMinute for every sixty seconds, up to burst or a minute's worth) covers the cost (at least 1) or the cost exceeds the capacity; refused, it waits 60 × what is missing / perMinute seconds; it charges its own bucket alone |
| `RateNumbers.EmptyBucketWaits` | internal/ratelimit/limiter.go:214-237 | a refused call on an empty bucket waits exactly 60 × cost / perMinute seconds |
| `RateNumbers.EarnsPerMinute` | internal/ratelimit/limiter.go:214-256 | a bucket left alone for d seconds gains exactly perMinute × d / 60, up to burst or a minute's worth |
| `RateNumbers.ReserveInNumbers` | internal/ratelimit/limiter.go:383-429 | a reservation takes the cost whatever the balance, is told 60 × what it then owes / perMinute seconds, and records what it took; an oversized one takes what there is |
| `RateNumbers.UnlimitedInNumbers` | internal/ratelimit/limiter.go:17-29 | a rate of zero or less admits everything and touches nothing |
| `RateNumbers.OneRequestInNumbers` | internal/ratelimit/limiter.go:140-185 | a request without a key or a rate is skipped; any other, alone in its list, is answered as by Allow |
| `RateNumbers.EvictionInNumbers` | internal/ratelimit/limiter.go:271-298 | below the bound nothing goes; at it exactly the buckets last seen longer ago than the idle time, and exactly one more if those make no room |
| `RateUndo.CancelUndoesReserve` | internal/ratelimit/limiter.go:356-429 | cancelling a reservation at once, on any list of requests that could hold the cost, leaves every charged bucket as if only looked at and every other as it was |
| `RateUndo.DelayIsLongest` | internal/ratelimit/limiter.go:383-429 | on distinct buckets the delay is exactly the longest wait any of them needs to earn what it owes, and zero if none owes |
| `RateBound.ReservedSendFitsMeter` | internal/ratelimit/limiter.go:321-429 | under changing limits, all uncancelled charges fit in the grant so far plus the rate in force over the delay a reservation was told |
| `RateBound.ReservedSendStaysWithinRate` | internal/ratelimit/limiter.go:321-429 | under one limit, a reservation sent at its reserve time plus its delay keeps all uncancelled charges within capacity + rate × time since creation |
| `RateBound.StepCharges` | internal/ratelimit/limiter.go:101-185 | one call moves the account of a key by exactly its net charge (what was admitted or reserved minus what a cancellation returned) and its grant by the time since the last refill |
| `RateLives.LifeBound` | internal/ratelimit/limiter.go:241-373 | from any state in which the key has no bucket, evicted, forgotten or never made: what is charged from there on and not given back, plus the balance, never exceeds the grant plus what cancelled reservations of earlier lives pay in |
| `RateLives.BoundedUnlessStale` | internal/ratelimit/limiter.go:301-373 | so a life in which no earlier reservation is cancelled keeps within its own grant, whatever happened before it |
| `RateLives.LivesBoundedIffNothingHeld` | internal/ratelimit/limiter.go:349-373 | in every reachable state without a bucket for the key, all that can follow keeps within the grant if and only if no reservation not given up holds anything for it |
| `RateLives.CancelledLateHandsOutTwice` | internal/ratelimit/limiter.go:301-373 | for every limit a run that reserves, forgets, asks, cancels and asks again at one instant and is given twice the capacity the new bucket was granted |
| `RateAccount.ReserveAllCharges` | internal/ratelimit/limiter.go:383-429 | a reservation bills a key once per request naming it, keeps the account within the bound, and its delay covers the debt it leaves |
| `RateAccount.CancelCredits` | internal/ratelimit/limiter.go:356-373 | cancelling credits back exactly what the reservation took, so the bound holds for the smaller spend |
| `RateAccount.RefillKeeps` | internal/ratelimit/limiter.go:214-256 | re-rating and refilling, capped at capacity, never break the bound |
| `RateBound.BoundedIffCostFits` | internal/ratelimit/limiter.go:214-237 | all runs that charge one cost under one limit are within the bound if and only if the capacity could hold the cost |
| `RateBound.FirstCostDecides` | internal/ratelimit/limiter.go:101-118 | from any limiter that holds nothing for the key, the run of a single call is within the bound if and only if its cost fits |
| `RateBound.OversizedCostBreaksBound` | internal/ratelimit/limiter.go:198-237 | on an account at its grant, one verdict carried out keeps within it if and only if the cost fits; an oversized cost that is not even counted breaks it if and only if the bucket was in debt |
| `RateRetry.AllOrNothing` | internal/ratelimit/limiter.go:140-207 | with one limit for each key and no eviction: admitted exactly when every limited bucket admits the cost once; a refusal changes balances only by refill, an admission charges every limited bucket once for each request that names it and touches no other |
| `RateRetry.RetryTimeIsExact` | internal/ratelimit/limiter.go:140-237 | after a refusal with retry time d the same call is refused at every instant before d, naming the same instant, and admitted from d on |
| `RateRetry.PollingDoesNotPostpone` | internal/ratelimit/limiter.go:140-237 | any number of refused retries in between moves that instant neither way |
| `RateRetry.VerdictLater` | internal/ratelimit/limiter.go:214-237 | one bucket refuses later exactly while its announced wait lasts, and announces what is left of it |
| `RateRetry.AssessAllShape` | internal/ratelimit/limiter.go:152-175 | the assessing pass charges nothing, collects one verdict per limited request and the longest of their waits |
| `RateRetry.OverdrawnIffBilledMore` | internal/ratelimit/limiter.go:140-185 | an admitted call leaves a bucket in debt if and only if it could hold the cost and is billed more than its refilled balance |
| `RateRetry.DistinctNeverOverdraw` | internal/ratelimit/limiter.go:140-185 | with distinct keys every bucket pays once and none goes into debt |
| `RateRetry.DuplicateKeysOverdraw` | internal/ratelimit/limiter.go:140-185 | any number of repeats of a request the bucket can pay for once is admitted and paid for each time |
| `RateEviction.BucketsBounded` | internal/ratelimit/limiter.go:241-298 | in every run, the map never holds more than maxBuckets buckets (maxBuckets at least 1) |
| `RateEviction.EvictionMakesRoom` | internal/ratelimit/limiter.go:271-298 | whatever order the map is walked in, an eviction leaves strictly fewer than maxBuckets |
| `RateSpare.IdleEvictionUnobservable` | internal/ratelimit/limiter.go:241-298 | a run whose evictions drop only idle buckets that are not in debt answers every call exactly as the run without evictions, for limits with capacity at most rate times the idle time |
| `RateSpare.SpareEvictionUnobservable` | internal/ratelimit/limiter.go:241-298 | so does one whose evictions drop, idle or not, only buckets that would fill for every limit they may be asked under, the limits being any |
| `RateSpare.RunAlike` | internal/ratelimit/limiter.go:241-298 | the invariant behind both: after any number of calls the two maps agree but for buckets that would fill |
| `RateSpare.SpareIsFresh` | internal/ratelimit/limiter.go:241-268 | a bucket that would fill, looked up again and refilled, equals a new one |
| `RateSpare.DropIsExact` | internal/ratelimit/limiter.go:101-118 | the next call on a dropped bucket is answered alike for every cost if and only if its balance and the time since fill it under the limit named |
| `RateSpare.UnnoticedIffSpare` | internal/ratelimit/limiter.go:241-298 | and every continuation without a further eviction, of any calls, reservations, cancellations and `Forget`, is answered alike if and only if they do under every limit it may name |
| `RateSpare.UnnoticedIffSpareAfterRun` | internal/ratelimit/limiter.go:241-298 | in every state a run from an empty limiter reaches |
| `RateSpare.EvictionIsNoticed` | internal/ratelimit/limiter.go:271-298 | with room for one bucket and the code's own evictions: a key that reserves its capacity n times and goes idle is answered otherwise than without evictions, if less was earned than taken |
| `RateSpare.EvictionForgivesDebt` | internal/ratelimit/limiter.go:271-298 | for every limit, idle time and wait there is such an n |
| `RateSpare.DefaultBurstFits` | internal/ratelimit/limiter.go:31-37 | without an explicit burst the capacity always fits an idle time of a minute or more |
| `RateEviction.OldestIsLeastSeen` | internal/ratelimit/limiter.go:284-297 | a walk finds a least recently seen bucket if and only if it does not meet, before its end, the empty key with the bucket seen before every other |
| `RateEviction.EveryWalkIsRight` | internal/ratelimit/limiter.go:284-297 | every order of the map finds one if and only if the empty key is not, among several, the one seen before every other |
| `RateEviction.EmptyKeyMisleadsSearch` | internal/ratelimit/limiter.go:284-297 | any other map has an order in which another bucket goes |
| `RateLimiter.Bucket.Assess` | internal/ratelimit/limiter.go:214-237 | refills the bucket and returns the model's verdict on it |
| `RateLimiter.Bucket.Apply` | internal/ratelimit/limiter.go:198-207 | carries a verdict out as the model does |
| `RateLimiter.Bucket.Debit` | internal/ratelimit/limiter.go:397-426 | refills and takes the cost, into debt if need be, with the model's delay and what cancelling returns |
| `RateLimiter.Limiter.EvictIfNeeded` | internal/ratelimit/limiter.go:271-298 | removes a set that the eviction policy permits: all idle buckets and, if still full, one found by the search |
| `RateLimiter.Limiter.FindOldest` | internal/ratelimit/limiter.go:284-297 | one walk over the map, in some order, computes the model's search |
| `RateLimiter.Limiter.BucketFor` | internal/ratelimit/limiter.go:241-268 | finds, re-rates or creates the bucket, evicting first; every other surviving bucket keeps its identity and its fields |
| `RateLimiter.Limiter.AssessRequests` | internal/ratelimit/limiter.go:152-175 | the first phase leaves the map and the collected verdicts as the model's, though a later request may evict a bucket already assessed |
| `RateLimiter.Limiter.AllowAll` | internal/ratelimit/limiter.go:140-185 | answer and map equal the model's for an eviction the policy permits |
| `RateLimiter.Limiter.Allow` | internal/ratelimit/limiter.go:101-118 | answer and map equal the model's; an unlimited limit touches nothing |
| `RateLimiter.Limiter.ReserveAll` | internal/ratelimit/limiter.go:383-429 | charges, delay and the record of what was taken equal the model's |
| `RateLimiter.Limiter.Forget` | internal/ratelimit/limiter.go:301-305 | removes the key's bucket and nothing else |
| `RateLimiter.Reservation.Cancel` | internal/ratelimit/limiter.go:356-373 | returns what was taken to the buckets still there, and a second call returns nothing |
| `ReviewSafety.ReviewIsSafe` | internal/emailfilter/review.go:91-176 | in every run with any interleaving, failures and stopped workers, every event in the log is justified by the message's earlier ones: one claim, a release tried once and only after a RELEASED claim, a discard once and only after REJECTED or EXPIRED, one announcement that matches the claim, "released" only after delivery |
| `ReviewSafety.NothingTwice` | internal/emailfilter/quarantine.go:175-189 | no two events of a kind happen to one message, and its payload is never both released and discarded |
| `ReviewSafety.StoreMatchesLog` | internal/emailfilter/quarantine.go:9-28 | a stored message is pending exactly when nothing was decided, and otherwise carries the one decision claimed |
| `ReviewComplete.DecisionsAreCarriedOut` | internal/emailfilter/review.go:91-176 | in every run, any interleaving and failures, in which no one stops early: once no one has work left on a message, its history is exactly what its record and the configuration call for: a hold that can go was tried, what went or never waited was announced, a payload that can be discarded was |
| `ReviewComplete.StepOwes` | internal/emailfilter/expiry.go:54-117 | the invariant behind it: however the remaining jobs turn out, they complete the history |
| `ReviewSafety.UndecidedHoldStays` | internal/emailfilter/stores/postgres/quarantine.go:279-308 | in every run a hold nobody decided about is still stored and pending: pruning never takes it |
| `ReviewSafety.StepKeeps` | internal/emailfilter/review.go:91-176 | every step of every worker keeps the per-message invariant: a lawful history and at most one worker with jobs for it |
| `ReviewSafety.RunKeeps` | internal/emailfilter/expiry.go:54-117 | so does every run, pruning included |
| `ReviewQueue.Queue.Review` | internal/emailfilter/stores/postgres/quarantine.go:171-196 | moves a message exactly when the status is an outcome and it is the tenant's and pending; otherwise nothing changes, and a status that is no outcome, a message already decided and one not found are told apart |
| `ReviewQueue.Queue.Release` | internal/emailfilter/review.go:91-141 | does a run of the machine and puts exactly this on the log: the claim; a release try if it is a hold with a payload whose direction has a releaser; an announcement if it went, or was no hold, and there is a notifier. Success exactly when it went or was no hold; a message not pending or of another tenant changes nothing |
| `ReviewQueue.Queue.Reject` | internal/emailfilter/review.go:148-176 | the same: the claim, a discard if it is an outbound hold with a payload and there is an outbox, the announcement; a failed discard does not change the decision |
| `ReviewQueue.Queue.ExpireDue` | internal/emailfilter/quarantine.go:182-189 | moves at most the limit of due messages, all of them when fewer than the limit come back, and returns exactly those it moved |
| `ReviewQueue.Queue.Expire` | internal/emailfilter/expiry.go:54-94 | the same for a sweep: a claim for every message it moves, all overdue, then the discards in order, then an announcement for each with a tenant; below the limit nothing overdue is left |
| `SqlExpire.ReportsOwnRowsOnly` | internal/emailfilter/stores/postgres/quarantine.go:217-277 | the rows returned and not moved are those another sweep expired between select and update and nobody pruned; those moved and not returned are those a prune deleted between update and read; so the call returns its own rows if and only if there are neither |
| `SqlExpire.OverlappingSweepsBothReport` | internal/emailfilter/stores/postgres/quarantine.go:217-277 | two sweeps that select the same row both return it though only one moved it |
| `SqlExpire.PruneHidesMovedRow` | internal/emailfilter/stores/postgres/quarantine.go:279-308 | a prune between update and read hides any row the call moved |
| `SqlExpire.MeanwhileDecides` | internal/emailfilter/stores/postgres/quarantine.go:165-308 | of several conditional updates of a pending row exactly the first takes effect, and a prune deletes it only once it is decided, or at any time if it was never a hold |
| `SqlReview.SqlReviewIsSafe` | internal/emailfilter/stores/postgres/quarantine.go:200-277 | with the three-statement sweep in the machine and everyone else's steps in between: every event is justified as before, or is a discard or announcement of an expiry that was claimed; so still one claim, one release and only of a released message, never release and discard, no outcome told but the one decided |
| `SqlReview.SqlStoreMatchesLog` | internal/emailfilter/stores/postgres/quarantine.go:165-277 | the stored status is still the one decision claimed, and pending means none |
| `SqlReview.OverlappingSweepsRepeat` | internal/emailfilter/expiry.go:54-94 | from any state, two sweeps of one due message that overlap discard its payload twice and announce its expiry twice |
| `SqlReview.OneSweepAtATimeIsSafe` | internal/emailfilter/expiry.go:54-117 | in every run in which no sweep selects before the one under way has read back, nothing happens twice: every event is justified as under the store's contract |
| `MigrateSafety.MigrationIsExactlyOnce` | internal/migrate/migrate.go:56-164 | for any number of instances, any interleaving and crashes: the committed schema is the steps up to some point applied once each to the original, skipping those recorded before, and the commits are in strictly ascending order and none was recorded before |
| `MigrateSafety.NilMeansUpToDate` | internal/migrate/migrate.go:56-101 | an instance that returned nil has every step recorded, and the schema is the whole list applied |
| `MigrateSafety.NothingMoreToDo` | internal/migrate/migrate.go:56-101 | once every step is recorded no later action of any instance changes the database |
| `MigrateSafety.OneAtATime` | internal/migrate/migrate.go:290-307 | two instances are never both between taking and releasing the lock |
| `MigrateSafety.CommitsInOrder` | internal/migrate/migrate.go:335-343 | the versions a run commits are the unrecorded ones, each once, ascending |
| `MigrateSafety.CommitAdvances` | internal/migrate/migrate.go:117-135 | a commit extends the applied prefix by its own step |
| `MigrateRunner.NotDone` | internal/migrate/migrate.go:56-101 | a step that cannot be applied leaves the whole list without a result: no later step makes up for it |
| `MigrateSafety.StepKeeps` | internal/migrate/migrate.go:56-164 | every action, the lost answer to a commit and a crash included, keeps the protocol's invariant |
| `MigrateRunner.Database.Apply` | internal/migrate/migrate.go:145-164 | the statements' meaning with benign failures undone; if no call to the database itself fails it succeeds exactly when none fails otherwise |
| `MigrateRunner.Database.ApplyAndRecord` | internal/migrate/migrate.go:117-135 | step and record both happen or neither, also when the answer to a commit is lost; with a calm database it succeeds exactly when the statements do and the version is new |
| `MigrateRunner.Database.Migrate` | internal/migrate/migrate.go:56-101 | whatever fails, the state is a prefix of the outstanding steps; success means all of them; with a calm database it succeeds exactly when they can be applied |
| `MigrateFiles.LoadMigrations` | internal/migrate/migrate.go:310-346 | loads, strictly ascending by version, exactly the steps (n, name) for which a file, not a directory, is named by a number without underscore that reads n, an underscore, the name and ".sql"; refused for a bad name if and only if a ".sql" file has no such reading, and for a version if and only if two files carry it |
| `MigrateFiles.ParseNameReads` | internal/migrate/migrate.go:349-363 | a file name reads as (n, name) if and only if it is such a number, an underscore, the name, underscores included, and ".sql" |
| `MigrateFiles.BadNames` | internal/migrate/migrate.go:349-363 | it reads as nothing if and only if there is no underscore or what stands before the first is no 64-bit decimal |
| `MigrateFiles.PaddedNameReads` | internal/migrate/migrate.go:349-363 | zeros in front of the version make no difference |
| `MigrateFiles.ParseAll` | internal/migrate/migrate.go:316-333 | fails if and only if some step file has a bad name, and otherwise finds exactly the steps that files are named for, in directory order |
| `MigrateFiles.FindDuplicate` | internal/migrate/migrate.go:335-343 | in a sorted list, neighbours with one version are found or all versions are distinct |
| `LogStore.PagingIsComplete` | internal/logging/store.go:183-232 | following tokens from the start over a store that only gains newer keys ends, and the pages together are the tenant's original entries newest first, each once, whatever the page size (at least 1) and scan budget |
| `LogStore.CrawlFrom` | internal/logging/store.go:183-232 | the same from any token |
| `LogStore.BelowIsOwn` | internal/logging/store.go:183-232 | what the pages make up holds an entry if and only if some value at or below the start decodes to it and it is the tenant's, or the caller is the operator |
| `LogStore.BelowIsNewestFirst` | internal/logging/store.go:200-232 | in the order of the keys, from the newest down |
| `LogStore.ScanLosesNothing` | internal/logging/store.go:200-232 | a page and what lies below its end make up what lay below its start, wherever the budget cut it off |
| `LogStore.PrefilterIsExact` | internal/logging/store.go:183-232 | the byte search for the tenant never drops an entry that decoding would have shown |
| `LogStore.EmptyPagesNeverEnd` | internal/logging/store.go:183-232 | without a positive page size no number of pages gets anywhere, from any token |
| `LogStore.PagingEnds` | internal/logging/store.go:183-232 | paging from the start ends if and only if the page size is positive or the store was empty |
| `LogStore.StampOfKey` | internal/logging/store.go:81-100 | the timestamp read from a key is the one it was written with |
| `LogStore.BoundIsExact` | internal/logging/store.go:243-262 | for timestamps as wide as the cutoff, a key sorts below the bound exactly when it is earlier |
| `LogStore.BoundReaches` | internal/logging/store.go:243-262 | for every timestamp before the cutoff, of any sign and width, whether its key sorts below the bound, in terms of signs, widths and leading digits |
| `LogStore.BoundedScanIsFullScan` | internal/logging/store.go:243-301 | for a store of keys it wrote, the bounded scan keeps exactly the keys not stamped before the cutoff if and only if the bound reaches every timestamp before it |
| `LogStore.OneWidthIsEnough` | internal/logging/store.go:236-243 | which one digit width ensures |
| `LogStore.NarrowStampSurvives` | internal/logging/store.go:243-301 | a narrower timestamp is before the cutoff, and is kept if and only if it is not below the cutoff's leading digits |
| `LogStoreRun.Store.ReadPage` | internal/logging/store.go:183-232 | the loop returns the page and the token of the model |
| `LogStoreRun.Store.TruncateBefore` | internal/logging/store.go:243-325 | without an error exactly the doomed keys are gone and counted across all commits; with one, some prefix of them; with calm storage there is none |
| `LogStoreRun.Store.DeleteInBatches` | internal/logging/store.go:243-301 | at every point of the scan the store is what the committed batches leave, and the count includes the open batch |
| `LogStoreRun.CommitMovesFrontier` | internal/logging/store.go:264-301 | committing the batch gathered over a stretch deletes exactly the doomed keys of that stretch |
| `LogStoreRun.NothingRecentIsLost` | internal/logging/store.go:243-325 | a key stamped at or after the cutoff, or without a readable stamp, survives at every point of the scan |
| `Base64.DecodeUndoesEncode` | pkg/secrets/keyring.go:164-248 | decoding undoes encoding for all byte strings and both alphabets of RFC 4648 (sections 4 and 5) |
| `Base64.EncodeGroup` | pkg/secrets/keyring.go:180-181 | three bytes are four letters of the alphabet's table, six bits each |
| `Base64.EncodeEnd` | pkg/secrets/keyring.go:180-181 | one byte left over is two letters, two are three, unpadded |
| `Base64.EncodeClean` | pkg/tracking/bounce_ref.go:32-61 | encoded text holds neither a dot nor a colon nor a line break, and is empty only for no bytes |
| `Keyring.DecryptUndoesEncrypt` | pkg/secrets/keyring.go:164-223 | for every plaintext, also one that looks encrypted, Decrypt undoes Encrypt and the value needs no rotation; what is stored is "enc:v2:", the key's id and the ciphertext, and "" for "" |
| `Keyring.UnnamedReads` | pkg/secrets/keyring.go:215-223 | an "enc:v1:" value written by any key of the ring, primary or retired, reads to its text |
| `Keyring.NamedReads` | pkg/secrets/keyring.go:203-213 | so does an "enc:v2:" value that names the key |
| `Keyring.PlainReads` | pkg/secrets/keyring.go:186-195 | a value with neither marker reads as itself |
| `Keyring.NoKeyNoSecret` | pkg/secrets/keyring.go:164-197 | without a keyring nothing is encrypted, nothing encrypted is read, and both say so |
| `Keyring.RotationLosesNothing` | pkg/secrets/keyring.go:164-294 | rewriting any readable value (plain, v1 or v2) when NeedsRotation says so gives one that the primary alone decrypts to the same text and that needs no rotation |
| `Keyring.SettledReadsAlone` | pkg/secrets/keyring.go:285-294 | a readable value that needs no rotation reads the same with the primary alone |
| `Keyring.RekeyedReads` | pkg/secrets/keyring.go:186-223 | putting a new key in front changes nothing about what the old values read as |
| `Keyring.KeyChangeLosesNothing` | pkg/secrets/keyring.go:73-294 | a whole key change, re-keying then rotating every value, leaves a store that the new key alone reads to the same texts |
| `Keyring.KeyChangeKeepsText` | pkg/secrets/keyring.go:73-294 | so every text that any old key wrote, marked v1, v2 or not at all, is read by the new key alone |
| `Keyring.NewKeyring` | pkg/secrets/keyring.go:107-132 | fails exactly when the primary or a nonblank retired key is invalid; blank entries and repeats of the primary are left out, order kept |
| `Keyring.Ring.Replace` | pkg/secrets/keyring.go:73-75 | takes over the other ring's keys; if those only put a key in front, what was readable still reads the same |
| `Tracking.CanonicalInjective` | pkg/tracking/signer.go:126-134 | no link at all, whatever its fields hold, renders like one whose fields hold no NUL |
| `Tracking.RenderingIsUnique` | pkg/tracking/signer.go:126-134 | a rendering belongs to one link only if and only if no field of it holds NUL |
| `Tracking.SignatureIsOneLinks` | pkg/tracking/signer.go:82-121 | under an injective MAC so does a signature |
| `Tracking.SignatureVerifiesOwnLinkOnly` | pkg/tracking/signer.go:82-121 | under an injective MAC the signature of a NUL-free link verifies for it and is a bad signature for every other link |
| `Tracking.RefRoundTrips` | pkg/tracking/bounce_ref.go:32-70 | a reference verifies to its message id, dots included, for any spelling of the recipient that differs in A-Z case and surrounding space only, if and only if the id is not empty |
| `Tracking.RefIsWritten` | pkg/tracking/bounce_ref.go:22-38 | the header holds "v1.", the id, a dot and the base64url tag of "bounce", tenant, id, lowered recipient and nothing, NUL between them |
| `Tracking.PaddedRefReads` | pkg/tracking/bounce_ref.go:46-50 | space around a quoted reference does not matter |
| `Tracking.RefBinds` | pkg/tracking/bounce_ref.go:32-70 | a reference made for NUL-free values verifies for a tenant and a recipient, whatever they hold, if and only if they are its own and its id is not empty |
| `Tracking.RefBindsExactly` | pkg/tracking/bounce_ref.go:32-70 | a reference verifies for its own tenant and recipient only if and only if its text splits around the message in no second place that leaves a normalised recipient |
| `Tracking.RefIsNoLink` | pkg/tracking/bounce_ref.go:63-70 | the signature of a reference for NUL-free values does not verify for any link of another kind |
| `Tracking.BelievedMeansTagged` | pkg/tracking/bounce_ref.go:46-61 | any value at all that verifies carries the MAC of exactly this tenant, message and recipient |
| `Tracking.SeparatorInFieldConfuses` | pkg/tracking/signer.go:126-134 | every link with NUL in a field has a different link that renders alike |
| `Tracking.Signer.SetKey` | pkg/tracking/signer.go:68-72 | the key is swapped; a reference minted before verifies after if and only if both keys are there and tag its link alike |
| `Tracking.Signer.Mint` | pkg/tracking/bounce_ref.go:32-38 | without a key no reference; with one, a reference that verifies to the message id for every spelling of the recipient if and only if the id is not empty |
| `FilterMeaning.NumbersReachThreshold` | internal/emailfilter/condition.go:211-240 | a numeric condition holds if and only if the count of attachments, the greatest of their sizes (or zero), their sum, the message size or the count of distinct recipients is at least the threshold |
| `FilterMeaning.EnvelopeAnswers` | internal/emailfilter/condition.go:244-330 | a condition on from, to, cc, bcc, provider, SPF, DKIM or DMARC holds if and only if that string, or one of those addresses, is not empty and answers: one of the values, trimmed and lowered, is part of it, equals it or is its domain, or a pattern is found |
| `FilterMeaning.ContentAnswers` | internal/emailfilter/condition.go:244-330 | the same for subject, body (HTML or text) and either |
| `FilterMeaning.AttachmentsAnswer` | internal/emailfilter/condition.go:266-284 | the same for the name, the extension and the text of some attachment |
| `FilterMeaning.AttachmentsTell` | internal/emailfilter/condition.go:198-209 | has-attachment and has-executable hold if and only if there is one, and one with an executable extension |
| `FilterMeaning.RecipientsAnswer` | internal/emailfilter/condition.go:254-255 | any-recipient holds if and only if some address, in the first spelling met in to, cc, bcc, answers |
| `FilterMeaning.HeadersAnswer` | internal/emailfilter/condition.go:214-219 | a header condition looks under the trimmed, lowered name: it exists, or one of its values answers |
| `FilterMeaning.ExtensionMeans` | internal/emailfilter/message.go:54-58 | the extension is the lowered text after the last dot of the file's own name, or empty |
| `FilterMeaning.DistinctCounts` | internal/emailfilter/message.go:126-140 | recipients are counted once up to case and surrounding space, blank ones not at all |
| `FilterMeaning.LowerThresholdHolds` | internal/emailfilter/condition.go:212-213 | a lower threshold holds wherever a higher one does |
| `FilterMeaning.MoreValuesHold` | internal/emailfilter/condition.go:295-330 | a longer list of values holds wherever a shorter one does |
| `FilterRules.DecidedByLeast` | internal/emailfilter/rule.go:153-178 | the decision is that of the enabled, same-direction, matching rule with least priority and, among those, least position, and lists all its conditions in order |
| `FilterRules.UndecidedIffNoneQualifies` | internal/emailfilter/rule.go:145-178 | no rule decides exactly when none qualifies, and then the message is delivered; otherwise exactly one index decides |
| `FilterRules.StoppedIffDeciderStops` | internal/emailfilter/rule.go:125-143 | mail is stopped exactly when the deciding rule holds or rejects; an allow or tag rule delivers |
| `FilterRules.IrrelevantRuleIsIgnored` | internal/emailfilter/rule.go:153-178 | a disabled, other-direction, non-matching or outranked rule inserted anywhere changes nothing |
| `FilterRules.RelevantRuleDecides` | internal/emailfilter/rule.go:153-178 | any other rule, inserted anywhere, takes the decision over |
| `FilterRules.EngineFindsBest` | internal/emailfilter/rule.go:153-178 | filtering, stable sorting and first match find what a single pass keeping the best rule finds |
| `FilterRules.FirstOfInsert` | internal/emailfilter/rule.go:160-164 | the first firing rule of a list after a stable insertion is the new one exactly when it fires and ranks strictly lower |
| `FilterRules.OneDecides` | internal/emailfilter/rule.go:153-178 | the deciding rule is unique |
| `FilterScreen.LazyReadingIsInvisible` | internal/emailfilter/screen.go:92-106 | for every rule set, message and extraction function, the decision equals the one on the message with all attachment text read |
| `FilterScreen.ConditionIgnoresText` | internal/emailfilter/condition.go:198-290 | a condition on any other field gives the same answer whatever the attachments' text is |
| `FilterScreen.ReadingTwiceIsReadingOnce` | internal/emailfilter/attachment_text.go:32-53 | reading is idempotent |
| `FilterModel.DistinctIsExact` | internal/emailfilter/message.go:126-140 | every nonblank address is listed exactly once up to case and space |
| `FilterModel.ExtensionFollowsLastDot` | internal/emailfilter/message.go:54-58 | a file's extension is what follows its last dot |
| `FilterModel.NoDotNoExtension` | internal/emailfilter/message.go:54-58 | a file without a dot has none, whatever dots its directories have |
| `FilterModel.DomainIsWholeLabels` | internal/emailfilter/condition.go:334-344 | an address, in angle brackets or not, is of a domain exactly when its host is the domain or a subdomain on a label boundary |
| `FilterEngine.CollectRecipients` | internal/emailfilter/message.go:126-140 | the loop with its seen-set lists each nonblank address of the three lists once |
| `FilterEngine.MeasureAttachments` | internal/emailfilter/message.go:163-180 | the total, and a size no attachment exceeds that one of them has, or zero |
| `FilterEngine.MatchRule` | internal/emailfilter/rule.go:105-122 | fires exactly when enabled, every condition holds and no exception does; then all conditions come back in order, otherwise none |
| `FilterEngine.FindFirst` | internal/emailfilter/rule.go:166-177 | the search loop returns what the first firing rule of the list decides |
| `FilterEngine.RunRules` | internal/emailfilter/rule.go:153-178 | filter, sort and search return the decision of the least-ranked qualifying rule, or none |
| `FilterEngine.AsksAboutText` | internal/emailfilter/attachment_text.go:12-23 | whether some condition or exception of some rule is on attachment text |
| `FilterEngine.ReadAttachments` | internal/emailfilter/attachment_text.go:32-53 | fills in a copy: attachments with text, without data or of an unsupported kind are left alone |
| `FilterEngine.Screen` | internal/emailfilter/screen.go:92-106 | a rule store failure is reported and nothing else is; otherwise the decision on the fully read message |
| `BounceVerdicts.VerdictOnText` | pkg/emailutil/bounce.go:148-216 | on the text left when addresses are removed and the reply in it: the recipient is blamed if and only if the fault is not ours, the reply is neither of class 4 nor says to come back later, and says opted out or complained, or refuses no content and has a whole code 5.1.1, 5.1.2, 5.1.3, 5.1.6 or 5.1.10 or a hard-bounce phrase; the event of each case; retried if and only if neither blamed nor refused for content |
| `BounceVerdicts.UnrecognisedIsRetried` | pkg/emailutil/bounce.go:211-216 | an error that says none of it is BOUNCED, retried and blames no one, whatever code comes with it |
| `BounceVerdicts.ReplyIsRead` | pkg/emailutil/bounce.go:105-110 | the reply begins at the first three digits from 2xx to 5xx that stand after the start, space or a colon and before a space, a hyphen or the end |
| `BounceVerdicts.WithoutAddress` | pkg/emailutil/bounce.go:112-116 | an error without an at-sign is read as it stands, in lower case |
| `Bounce.RecipientCannotInfluence` | pkg/emailutil/bounce.go:112-216 | replacing one address by another, set off on each side by the end of the error or by a character that cannot be part of an address, never changes the classification |
| `Bounce.AddressIsRemoved` | pkg/emailutil/bounce.go:112-116 | an address so set off leaves no trace in the text that is classified |
| `Bounce.RemovalSplits` | pkg/emailutil/bounce.go:112-116 | removing addresses works on either side of such a character by itself |
| `Bounce.MatchIsLongest` | pkg/emailutil/bounce.go:112-116 | what is removed is the longest prefix the pattern accepts |
| `Bounce.CodesMatchWhole` | pkg/emailutil/bounce.go:118-126 | a code pattern matches exactly when some maximal run of digits and dots is one of its codes |
| `Bounce.PatternsAreCodes` | pkg/emailutil/bounce.go:30-75 | the three patterns in use are sets of such codes |
| `Bounce.ClassFourIsRetried` | pkg/emailutil/bounce.go:148-216 | an error whose first basic reply code is of class 4 is retried and never blamed on the recipient, whatever words and codes come before and after |
| `Bounce.BlameIsInReply` | pkg/emailutil/bounce.go:148-216 | unless the fault is ours, nothing that comes before the first reply code changes the verdict |
| `Bounce.OurFaultStaysOurs` | pkg/emailutil/bounce.go:148-178 | what is an infrastructure fault when said alone is one in any surroundings: retried and never blamed on the recipient, whatever code comes with it |
| `BackupSafety.BackupsAreSafe` | internal/backup/backup.go:85-226 | over any sequence of runs, each cut off after any file operation: nothing there before the first is deleted or overwritten, and a manifest names only entries its own run finished |
| `BackupSafety.AdvanceKeeps` | internal/backup/backup.go:85-198 | every single file operation keeps the directory's invariant |
| `BackupSafety.RetryCompletes` | internal/backup/backup.go:85-198 | a run that nothing cuts off, into any directory without a manifest that has the marker or none of its names, ends with a whole manifest listing exactly what the plan produces, every entry whole, and no marker |
| `BackupSafety.RetryRefused` | internal/backup/backup.go:91-198 | otherwise it is refused and changes nothing |
| `BackupSafety.CompletesIffReady` | internal/backup/backup.go:85-198 | so a run can complete if and only if the directory is ready in that sense |
| `BackupSafety.ReadyAfterRuns` | internal/backup/backup.go:166-198 | after any runs it is ready if and only if there is no manifest and none of the names was there before the first |
| `BackupSafety.TornManifestBlocksRetry` | internal/backup/backup.go:147-158 | every plan can be cut off so that an unreadable manifest stays for good |
| `BackupSafety.SnapshotsOverwriteNothing` | internal/backup/backup.go:112-124 | once copying has begun a snapshot writes over nothing, whatever the plan, also one that names an entry twice |
| `BackupSafety.ResumingClears` | internal/backup/backup.go:180-198 | with the marker down, an entry survives every cut-off of a run if and only if it is not one of the run's names, whoever wrote it |
| `BackupRun.OutDir.Claim` | internal/backup/backup.go:180-198 | the claiming loop does the machine's operations one by one, stopping where it is cut off |
| `BackupRun.OutDir.CopyAll` | internal/backup/backup.go:112-143 | so does the copying, listing what it produced |
| `BackupRun.OutDir.Run` | internal/backup/backup.go:85-164 | the whole run leaves the directory the machine leaves, and answers with the listing exactly when it got to the end |
| `Luhn.Check` | internal/redact/shapes.go:109-136 | the backward loop accepts exactly the strings whose digits number 13 to 19 and have a recursive checksum divisible by ten |
| `Luhn.AcceptedByPlace` | internal/redact/shapes.go:109-136 | a number is accepted if and only if it has 13 to 19 digits and the sum is a multiple of ten in which the digits at odd distance from the last count twice, less nine from ten on |
| `Luhn.SeparatorsAreIgnored` | internal/redact/shapes.go:109-119 | adding or removing a space or hyphen anywhere changes nothing |
| `Luhn.SubstitutionIsCaught` | internal/redact/shapes.go:109-136 | changing any one digit of an accepted number makes it unacceptable |
| `Luhn.OneInTenPasses` | internal/redact/shapes.go:86-96 | at any place exactly one of the ten digits completes a card number |
| `TtlCache.HitIsLatestPut` | pkg/cache/ttl_cache.go:50-106 | with a clock that does not step back, an answer is a hit exactly when the latest Put of the key found fewer live other keys than the limit, was made at most the lifetime ago, and no Delete came since; and it is that Put's value; all of it read off the log of calls |
| `TtlCache.FullIsCrowded` | pkg/cache/ttl_cache.go:69-83 | a Put is skipped if and only if as many other keys are live at its sweep as the cache may hold |
| `TtlCache.RunAgrees` | pkg/cache/ttl_cache.go:50-106 | the invariant behind it, key by key |
| `TtlCache.SkippedPutHidesNothing` | pkg/cache/ttl_cache.go:69-83 | after a Put that finds that many others live the key is not found, at any time |
| `TtlCache.NeverOverLimit` | pkg/cache/ttl_cache.go:69-83 | in every run the size is at most the limit |
| `TtlCache.Cache.constructor` | pkg/cache/ttl_cache.go:38-47 | an empty cache; a limit of zero or less means 4096 |
| `TtlCache.Cache.Get` | pkg/cache/ttl_cache.go:50-65 | the answer the log allows, the entry dropped if it has run out |
| `TtlCache.Cache.Put` | pkg/cache/ttl_cache.go:69-83 | the cache stays what the log says, within its limit |
| `TtlCache.Cache.Delete` | pkg/cache/ttl_cache.go:86-90 | the same for a deletion |
| `TtlCache.Cache.EvictExpired` | pkg/cache/ttl_cache.go:99-106 | the sweep removes exactly the entries that have run out |

## Left out

- Floating point: the limiter computes in `real`, so rounding, and the truncation of waits to nanoseconds, are not modelled; retry times are exact here.
- Sizes are unbounded integers: the wrap-around of attachment totals at 64 bits is not modelled. Timestamps in log keys are held to 64 bits.
- Text is ASCII where case and space matter: Unicode case mapping and Unicode space are not modelled.
- Regular expressions in filter conditions are a parameter, and their compilation in `Condition.Validate` is left out; the classifier's patterns are modelled as scanning.
- Cryptography is a parameter: the keyring assumes that opening undoes sealing and that no ciphertext opens under two keys of a ring, the references that the MAC is injective. AES-GCM, HMAC and SHA-256 are not part of this model.
- JSON is a parameter of the log store: an encoded entry contains its tenant's field as the encoder writes it, and decoding an encoded entry gives it back.
- Attachment text extraction is a parameter; which formats are supported is not modelled.
- A rule's action is one of the four the engine knows, and its direction any string; a stored rule with some other action is not modelled.
- A sweep limit of zero or less, which the SQL store replaces by its page size, and an empty backup directory name, which is refused, are left out.
- Map iteration order is arbitrary everywhere it shows: evictions, backups.
- Each method that holds a mutex is one step; data races and the Go memory model are not modelled.
- SQL text, Pebble and the file system appear as rows, an ordered map and a name-to-content map. Statement splitting, dialect types and the version table's creation are left out.
- ReviewSafety.ReviewIsSafe: takes the store's sweep to meet its contract, because what survives over the SQL store's sweep is stated in SqlReview.
- RateLives.LifeBound: a life that begins in the middle of one call, by a bucket evicted and asked for again within it, is taken up only at the next call.
- RateBound.RateBoundOverRuns: needs the key neither evicted nor forgotten, because a bucket's later lives are stated in RateLives.
- LogStoreRun.Store.TruncateBefore: does not state the count when a call fails, because it can include deletes of a batch that was never committed.
- BackupSafety.BackupsAreSafe: needs one fixed set of plain, distinct names and one run at a time, because neither is enforced by the code; exactly which entries changing names endanger is `BackupSafety.ResumingClears`.
- The prune of decided messages is a step that removes any of them; its age cutoff is left out, and so is what the held-message pruner does between a release claim and its delivery.
- Recording a decision (identity, deadline, notification), header normalisation and the building of a quarantine record would only add easy members.
- Log subscriptions, the log worker's batching, flushing and compaction.
- The redactor's label and shape patterns, tracking link rewriting and target validation.
- Configuration, retention policies, authentication, the HTTP and RPC layers, the web interface.
