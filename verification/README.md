# Verification of goy-store

goy-store is a storage layer with a Go and a Rust implementation: six kinds of store, in-memory and
local backends for each, and a resilience layer that wraps every call. This project models the parts
that carry state-machine, index or protocol logic and proves what they promise over all inputs, runs and
interleavings. `dafny verify dfyconfig.toml` checks it.

- **Circuit breaker and retry, Go** (`GoBreaker`, `GoExecutor`, `GoExecutorLaws`, `OutageLaws`). Every breaker method
  runs under one mutex, so the breaker is a class whose methods append one event to a history. The
  fields are proved to be a function of that history, the retry loop is given a meaning of its own, and
  whole sequential runs get a load bound (shown to be reached) and conserved metrics.
- **Circuit breaker, Rust** (`RustBreaker`). Two fair read-write locks and an atomic counter, with a
  program counter per task; one lock acquisition, release or memory access per step, any number of
  tasks. Run without overlap the steps amount to the sequential breaker that the executor uses.
- **Backoff** (`Backoff`, `GoBackoff`). The retry delays in exact arithmetic, with the overflows of the
  factor, of the attempt counter and of the conversions; Go's jitter is any draw.
- **Retry, Rust** (`RustExecutor`, `RustExecutorLaws`, `RustOutageLaws`, `RetriedStores`). Attempts may take
  effect and still fail, and a file-system put may be cut off anywhere; and the breaker over sequential
  runs of executes, with a load bound and the wrap-around of its counter.
- **Sorted set** (`Scores`, `RecencyList`, `RecencyLaws`, `ScoreIndex`, `SortedSet`, `GoSortedSet`). The Rust dual index
  against a list of members in last-add order; the Go map that filters and sorts on each query; and the
  refinement between the two. A score is NaN (with sign and payload), an infinity, negative zero or a
  real number; both comparisons in use are modelled: totalOrder (section 5.10 of IEEE 754-2008), which
  `total_cmp` implements, and the IEEE comparison operators.
- **Migrations** (`Migrations`, `Migrator`). Any number of migrators of one list, each restarted any
  number of times, over a database whose transactions commit atomically under a primary key on the
  version; then the migration loop itself, with rivals acting between its statements.
- **Pub/sub** (`PubSub`). Go's in-memory fan-out as a state machine with interleaved publishers and
  subscribers, and the store as an object whose methods are runs of that machine.
- **Blob stores** (`Paths`, `BlobStore`, `BlobRefinement`). The file-system store over a tree of
  directories, its stack-driven listing, and when it behaves as the in-memory map.
- **Shared**: `Sorting` (a sort has one result under a total order), `Words` (fixed-width integers),
  `Wrappers` (`Option`).

Clock readings, what a backend answers, when a caller cancels, which transaction fails and the order in
which a Go map or a directory is read are inputs or arbitrary choices, so every theorem holds for all of
them.

## Where the code and its documentation disagree

The model follows the code.

- The retry delay is documented as `base_backoff * 2^attempt` (README.md:209, PRD.md:309); the code uses
  `2^(attempt-1)`, counting attempts from 1.
- The circuit is documented to open when failures exceed the threshold and to probe with "a half-open
  trial request" (README.md:212). It opens when they reach the threshold, counts failed attempts rather
  than failed requests, and while it is HalfOpen it admits every caller.
- `range_by_score` with a limit of zero returns one entry in Rust and none in Go.

## What turned out false, and the exact condition

- *The Rust breaker always makes progress.* False: a `can_execute` that holds the state lock and waits for
  the time lock, against an `on_failure` that holds the time lock and waits for the state lock, stay so
  for ever (`RustBreaker.WedgeIsPermanent`), and no configuration is free of it (`WedgeIsReachable`). It is
  the only way to get stuck (`StuckOnlyWhenWedged`), and it needs an Open circuit (`ProgressUnlessOpen`).
- *The Go breaker stays Open or goes back to Open until a late probe succeeds.* False once 2^31 failures in
  a row wrapped the int32 counter (`GoBreaker.WrappedCounterStaysHalfOpen`); true before that
  (`OpenUntilProbed`). "Since the last trip" is right without a bound (`BreakerIsItsHistory`).
- *An outage is bounded by the threshold T, the retries R and the k reset timeouts since it opened the
  circuit.* For every outage of that length exactly if k is zero or T + (R+1)*k is below 2^31
  (`OutageLaws.OutageLoadBoundIff`, for T of at least 1 and R from 1 to 2^31 - 1); up to there the bound is
  reached (`OutageLoadBoundIsReached`).
- *The same bound for the Rust breaker.* For every outage of a configuration exactly if the threshold is at most
  max_retries, or is max_retries + 1 and even (`RustOutageLaws.OutageLoadBoundIff`); in every other
  configuration it holds until the u32 counter wraps (`OutageLoadBound`).
- *Between sequential executes the Rust breaker is never HalfOpen.* For all runs exactly if the threshold is at
  most max_retries, or is max_retries + 1 and even (`RustExecutorLaws.NeverHalfOpenIff`). In every other
  configuration it holds until the u32 counter wraps (`NeverHalfOpenBetweenExecutes`), and some run of
  failing executes loses it there (`WrappedCounterStaysHalfOpen`).
- *Between sequential executes the Go breaker is never HalfOpen.* For all runs exactly if the threshold is
  the least int32 (which the configured 2^31 converts to) or the retry loop never runs
  (`GoExecutorLaws.NeverHalfOpenIff`); so it is false of every threshold from 1 to 2^31 - 1, where it holds
  until the int32 counter wraps (`NeverHalfOpenBetweenExecutes`).
- *The Rust retry loop ends.* Exactly unless max_retries is the largest u32 and no attempt is ever
  acknowledged (`RustExecutor.StopsIff`).
- *A delay is the exact product, rounded down.* Exactly while it fits a u64 (`Backoff.DelayIsRoundedIff`). With
  a base of 2^63 ms three retries already sleep less than 0.75 * base * (2^3 - 1) - 3 ms
  (`SaturatedSleepIsShort`); then the total is at least the largest u64 (`TotalSleepAtLeast`).
- *A Go wait is the exact product without its fraction.* Whatever the implementation does on overflow, exactly
  while the product fits an int64 (`GoBackoff.WaitIsRoundedIff`).
- *Delays never decrease.* False exactly from attempt 64 to attempt 65 with a base above zero
  (`Backoff.DelaysNeverDecrease`).
- *Metrics balance.* The failed-attempt balance is missed by exactly the executes whose loop never runs
  because `MaxRetries + 1` wraps around (`GoExecutorLaws.MetricsAreConserved`).
- *The two sorted sets select the same members.* Exactly unless a range starts at positive zero with a
  negative zero in the set, or ends at negative zero with a positive zero in the set
  (`GoSortedSet.SelectionsAgree`); with a limit, exactly unless the limit is zero and something matches
  (`LimitedRangesAgree`).
- *A migrator always gets to the end of the list when nothing fails.* Exactly unless another migrator records
  the version of the transaction it is in (`Migrations.SucceedsAloneIff`); then it fails and can start over
  (`AnyMigratorCanFinish`).
- *A removed range is empty.* For every set exactly when neither bound is NaN
  (`RecencyList.RemovedRangeIsEmpty`).
- *A retried `remove_range` reports what was removed, a retried `set_if_not_exists` reports true when it
  created the key.* Exactly when no earlier attempt took effect unacknowledged
  (`RetriedStores.RemoveRangeRetried`, `RustExecutor.SetIfNotExistsRetried`).
- *Every get of the file-system blob store answers what the in-memory store answers.* Throughout a run,
  exactly if no put without metadata replaces a blob that has some: the old sidecar file stays
  (`BlobRefinement.GetsAgreeIff`). The data always agrees (`FilesystemRefinesMemory`).
- *An unacknowledged write is all or nothing.* True of the in-memory stores. For a put of the file-system
  store that is cut off, with a beginning of the data or of the sidecar written, and never completed,
  it holds for every cut exactly in these cases (`RetriedStores.CutPutIsAllOrNothingIff`): what it writes
  cannot be read anyway (a file is in the way, or the key or its sidecar is a directory); or the data is
  empty, or one byte replacing an empty blob, and either no metadata is given, or the same data is
  already there and the old or the new metadata is the default, or both are. So any put of two
  bytes or more can be seen half-written (`LongDataIsTorn`). A put that completes later repairs it
  (`CutPutsAreRepaired`).

## Model

| member | source | states |
|---|---|---|
| GoBreaker.CircuitBreaker.constructor | go/resilience.go:33-45 | a new breaker is Closed with an empty history; a threshold from 1 to 2^31 - 1 and a positive timeout are kept, those that are not positive become 5 and 30 seconds, and other thresholds are converted to int32 |
| GoBreaker.CircuitBreaker.CanExecute | go/resilience.go:48-66 | refuses exactly while the circuit is Open and the reset timeout has not passed since the last failure, and then changes nothing; a late question makes an Open circuit HalfOpen; the fields stay those of the history |
| GoBreaker.CircuitBreaker.OnSuccess | go/resilience.go:69-75 | closes the circuit and zeroes the counter; the fields stay those of the history |
| GoBreaker.CircuitBreaker.OnFailure | go/resilience.go:78-87 | stamps the time, adds one to the int32 counter and opens the circuit exactly if the counter is at least the threshold; the fields stay those of the history |
| GoBreaker.CircuitBreaker.StateCode | go/resilience.go:90-104 | the code tells the three states of the history apart |
| GoBreaker.CounterIsTrailingRun | go/resilience.go:69-87 | the counter is the number of failures since the last success, as an int32 |
| GoBreaker.ClosedBelowThreshold | go/resilience.go:48-87 | the circuit is Closed exactly while the run of failures is shorter than the threshold, wrap-around or not |
| GoBreaker.StampIsLastFailure | go/resilience.go:78-87 | the time stamp is that of the last failure in the history |
| GoBreaker.BreakerIsItsHistory | go/resilience.go:48-87 | counter and state are determined by the history: Closed below the threshold, else HalfOpen exactly when a CanExecute came at least the reset timeout after the failure before it and no failure tripped the breaker since |
| GoBreaker.OpenUntilProbed | go/resilience.go:48-87 | with fewer than 2^31 failures in a row, the circuit is Open exactly when it has tripped and no late CanExecute followed its last failure |
| GoBreaker.WrappedCounterStaysHalfOpen | go/resilience.go:78-87 | for every threshold, a history in which the failure that wraps the counter leaves the circuit HalfOpen |
| GoExecutor.ResilientExecutor.constructor | go/resilience.go:116-141 | retries, backoff, threshold, reset time and timeout that are not positive get their defaults; products of durations are int64; without metrics the instrumented store falls back on the default ones |
| GoExecutor.Metrics.Observe | go/metrics.go:155-163 | every backend call observes one duration, a failed one also counts one error |
| GoExecutor.ResilientExecutor.Report | go/resilience.go:160-177 | one attempt leaves one event in the breaker's history, its counts in the metrics, and the resulting state in the gauge; without metrics only the instrumented store counts |
| GoExecutor.ResilientExecutor.ExecuteWithResilience | go/resilience.go:144-194 | refused exactly while the circuit is Open and the reset timeout has not passed; else between 1 and maxRetries+1 backend calls, exactly maxRetries+1 when exhausted and at most maxRetries when cancelled, ended by the first call that succeeds or is cancelled; no call if maxRetries+1 wraps around; durations, errors and retries grow by the calls, the failed calls and the calls followed by a wait |
| GoExecutor.ResilientExecutor.RetryLoop | go/resilience.go:154-193 | the loop with its counters is the specified sequence of attempts, one event, one observation and at most one wait each |
| GoExecutor.ExecuteInNumbers | go/resilience.go:144-194 | the refusal and the number of calls of an execute in terms of the last failure, the reset timeout and maxRetries alone |
| GoExecutor.AttemptsMeaning | go/resilience.go:154-193 | the loop stops at the first attempt that succeeds, is cancelled while waiting or is the last allowed, and reports each attempt once, in order |
| GoExecutorLaws.ExecuteMeaning | go/resilience.go:144-194 | an execute is refused exactly when the breaker does not admit it; the loop never runs exactly when maxRetries+1 wraps around |
| GoExecutorLaws.FirstSuccess | go/resilience.go:144-194 | without cancellation an execute that is not refused calls the backend min(k, maxRetries+1) times, k the first successful attempt; it returns that success, leaving the breaker Closed with counter 0, or the last error |
| GoExecutorLaws.NeverHalfOpenBetweenExecutes | go/resilience.go:144-194 | after any sequential run of executes the breaker is not HalfOpen while its counter has not wrapped, and never if the threshold is the least int32 or the loop never runs |
| GoExecutorLaws.NeverHalfOpenIff | go/resilience.go:78-87 | it is not HalfOpen after any run exactly in those two configurations; in every other one a run of executes leaves it HalfOpen |
| OutageLaws.OpenedIffTripped | go/resilience.go:78-87 | in an outage the circuit has opened exactly when the failures reached the threshold |
| OutageLaws.OutageRun | go/resilience.go:48-194 | invariant over runs against a failing backend: calls are accounted for by the opening and by admitted probes, each a reset timeout after the last |
| OutageLaws.OutageLoadBound | go/resilience.go:48-194 | as long as no probe can meet the wrap of the counter: calls stay below T until the circuit opens, and then at most T + R + (R+1)*floor(E/D), retries after the opening and cancellations included |
| OutageLaws.OutageOfExecutes | go/resilience.go:144-194 | the same for the executes of ExecuteWithResilience: at most T - 1 calls while the circuit never opened, then at most T + R + (R+1)*floor(E/D) |
| OutageLaws.OutageLoadBoundIff | go/resilience.go:48-194 | every outage of k whole reset timeouts respects the bound exactly if k is 0 or T + (R+1)*k is below 2^31 |
| OutageLaws.OutageLoadBoundIsReached | go/resilience.go:48-194 | for all T, R, D and every number of reset timeouts for which the bound holds some run makes exactly as many calls |
| GoExecutorLaws.ExecuteIsAccounted | go/resilience.go:144-194 | one execute adds equally to both sides of both metric balances, unless its loop never ran |
| GoExecutorLaws.MetricsAreConserved | go/resilience.go:155-193 | over any set of executes, durations = errors + successes, errors = failed attempts, and failed attempts = retries + exhausted executes exactly when no loop failed to run |
| RustBreaker.InvKept | rust/src/resilience.rs:45-88 | every step of any task keeps: each lock's fields name exactly its waiters and holders, and a circuit that is not Closed has a failure time |
| RustBreaker.InvReached | rust/src/resilience.rs:45-88 | the invariant holds after every run from the initial state |
| RustBreaker.OpenHasFailureTime | rust/src/resilience.rs:45-78 | in every reachable state, Open or HalfOpen implies that the last failure time is set |
| RustBreaker.SectionsExclude | rust/src/resilience.rs:45-88 | in every reachable state, while one task is inside a section that holds the state, or the time, no other holds or reads it |
| RustBreaker.FirstComeFirstServed | rust/src/resilience.rs:45-88 | only the task that has waited longest gets the state lock, and only when nobody holds it |
| RustBreaker.StuckOnlyWhenWedged | rust/src/resilience.rs:45-78 | for any number of tasks, a reachable state in which no unfinished call can step has a can_execute holding state and waiting for time, and an on_failure with count >= threshold holding time and waiting for state, with the circuit Open |
| RustBreaker.ProgressUnlessOpen | rust/src/resilience.rs:45-88 | while the circuit is not Open some unfinished call can step |
| RustBreaker.WedgeIsPermanent | rust/src/resilience.rs:45-78 | once wedged, no further run of actions frees the two tasks, and nobody else gets the state lock |
| RustBreaker.WedgeIsReachable | rust/src/resilience.rs:45-78 | for every threshold and reset timeout the wedge is reachable |
| RustBreaker.AskAlone | rust/src/resilience.rs:45-61 | without overlap, can_execute on an Open circuit is refused and changes nothing before last failure + reset timeout, and from then on is admitted and makes it HalfOpen; otherwise it is admitted and changes nothing |
| RustBreaker.SucceedAlone | rust/src/resilience.rs:63-67 | without overlap, on_success closes the circuit and zeroes the counter |
| RustBreaker.FailAlone | rust/src/resilience.rs:69-78 | without overlap, on_failure adds one to the u32 counter, sets the failure time and opens the circuit exactly if the counter is at least the threshold |
| RustBreaker.CodeAlone | rust/src/resilience.rs:80-87 | without overlap, current_state_code answers 0, 1 or 2 for Closed, Open or HalfOpen and changes nothing |
| RustBreaker.AskDecides | rust/src/resilience.rs:51-57 | however other tasks interleave, a can_execute that compares the time of an Open circuit refuses before last failure + reset timeout and from then on makes it HalfOpen |
| RustBreaker.ClosedIffFewFailures | rust/src/resilience.rs:69-78 | in runs without on_success, whenever no on_failure is in flight the circuit is Closed exactly if fewer than threshold failures were recorded (a threshold of 0 acts as 1), whatever the interleaving |
| Backoff.DelaysNeverDecrease | rust/src/resilience.rs:163-169 | the delay after an attempt is at most the next one, except exactly at attempt 64 with a base above zero |
| Backoff.DelayIsRoundedIff | rust/src/resilience.rs:168 | a delay never exceeds the exact product, and is that product rounded down exactly if it fits a u64 |
| Backoff.DelayInNumbers | rust/src/resilience.rs:163-169 | attempt n, up to 64, sleeps the lesser of the largest u64 and base * 2^(n-1) * (75 + 37n mod 50) / 100 ms rounded down |
| Backoff.FirstDelays | rust/src/resilience.rs:163-169 | the first four delays are 1.12, 1.98, 3.44 and 9.84 times the base |
| Backoff.Pow2Adds | rust/src/resilience.rs:164 | the factor is a power of two |
| Backoff.SaturatedSleepIsShort | rust/src/resilience.rs:163-169 | a base and number of retries for which the lower bound fails |
| Backoff.NoSleepBeyond | rust/src/resilience.rs:164 | from the 65th retry on the total does not grow |
| Backoff.TotalSleepAtMost | rust/src/resilience.rs:163-169 | the total sleep of r retries is at most 1.24 * base * (2^min(r, 64) - 1) ms |
| Backoff.TotalSleepAtLeast | rust/src/resilience.rs:163-169 | with n = min(r, 64) it is at least 0.75 * base * (2^n - 1) - n ms if the longest delay fits a u64, and at least the largest u64 otherwise |
| GoBackoff.WaitIsRoundedIff | go/resilience.go:180-188 | a wait is the exact product without its fraction, whatever overflow gives, exactly if the product fits an int64 |
| GoBackoff.WaitInNumbers | go/resilience.go:180-188 | up to retry 63 the wait is base * 2^(n-1) ns times the jitter drawn, rounded down, below 2^63, and from there what the conversion gives |
| GoBackoff.LateWaits | go/resilience.go:180-188 | before retry 64 the product is negative, so nobody waits while it fits, and from retry 65 on it is zero |
| GoBackoff.FirstWaits | go/resilience.go:180-188 | a base of 100 ms and a jitter of 1.2 wait 120, 240 and 480 ms |
| GoBackoff.TotalWaitBounds | go/resilience.go:179-188 | for every draw of the jitter and every answer on overflow, the m first of n waits, whose products surely fit, take between 0.75 * base * (2^m - 1) - m and 1.25 * base * (2^m - 1) ns, the rest adds to that, and from the 65th on nobody waits |
| RustExecutor.ResilientExecutor.constructor | rust/src/resilience.rs:99-116 | configuration is taken as given; the breaker starts Closed |
| RustExecutor.ResilientExecutor.Execute | rust/src/resilience.rs:118-173 | whenever the loop stops: refused exactly while the circuit is Open and the reset timeout has not passed since the last failure; else it stops at the first acknowledged attempt or with the error of attempt max_retries + 1; every effective attempt is applied, the counter grows by the failed attempts as a u32 or is zeroed, and the failure time is that of the last failed attempt |
| RustExecutor.StopsIff | rust/src/resilience.rs:123-152 | the loop stops at exactly one attempt unless max_retries is the largest u32 and nothing is ever acknowledged, and then at none |
| RustExecutorLaws.CounterIsTrailing | rust/src/resilience.rs:118-173 | after any sequential run the counter is the failures since the last success, as a u32 |
| RustExecutorLaws.ExecuteLeavesHalfOpenIff | rust/src/resilience.rs:118-173 | one execute leaves the circuit HalfOpen exactly if it fails throughout on a circuit that is not Closed, short of the threshold or right behind the wrap |
| RustExecutorLaws.NeverHalfOpenBetweenExecutes | rust/src/resilience.rs:118-173 | after any sequential run the circuit is not HalfOpen if the configuration always trips, and otherwise while the counter has not wrapped |
| RustExecutorLaws.WrappedCounterStaysHalfOpen | rust/src/resilience.rs:69-78 | in every configuration that does not always trip, a run of failing executes, one per reset timeout, leaves the circuit HalfOpen |
| RustExecutorLaws.NeverHalfOpenIff | rust/src/resilience.rs:69-173 | no run leaves the circuit HalfOpen exactly if the threshold is at most max_retries, or is max_retries + 1 and even |
| RustOutageLaws.OutageLoadBound | rust/src/resilience.rs:45-173 | in a sequential run of failing executes the backend sees fewer than T calls until the circuit opens and from then on at most T + R + (R+1)*floor(E/D), as long as the u32 counter has not wrapped, and for ever in a configuration that always trips |
| RustOutageLaws.OutageLoadBoundIff | rust/src/resilience.rs:45-173 | every outage of a configuration respects the bound, however long it lasts, exactly if the threshold is at most max_retries, or is max_retries + 1 and even |
| RustOutageLaws.BoundIsLost | rust/src/resilience.rs:69-173 | in every other configuration a run of failing executes goes over it |
| RustExecutor.ResilientExecutor.ExecuteIdempotent | rust/src/resilience.rs:118-173 | an execute of an idempotent operation leaves the store unchanged or with it applied once, unchanged if refused, applied if it succeeds |
| RustExecutor.RepeatsChangeNothing | rust/src/resilience.rs:127-133 | any number of applications of an idempotent operation is one application |
| RustExecutor.EffectsAreCounted | rust/src/resilience.rs:127-133 | the operation is applied once for each attempt that was acknowledged or lost its acknowledgement |
| RustExecutor.EveryEffectCounts | rust/src/resilience.rs:127-133 | an operation that is not idempotent shows every one of those applications |
| RustExecutor.RetryIsExactlyOnce | rust/src/resilience.rs:118-173 | with lost acknowledgements the store is unchanged or has an idempotent operation applied once, and once after a success; which application the returned value comes from |
| RustExecutor.KvWritesAreIdempotent | rust/src/kv.rs:40-70 | set, delete and set_if_not_exists are idempotent on the store |
| RustExecutor.SetIfNotExistsRetried | rust/src/kv.rs:57-70 | a successful retried set_if_not_exists reports true exactly if the key was absent at the start and no earlier attempt took effect; either way the key is present with the right value |
| RustExecutor.CreatedButFalse | rust/src/kv.rs:57-70 | a run in which a retried set_if_not_exists creates the key and reports false |
| RustExecutor.ResilientKvStore.Set | rust/src/resilience.rs:204-210 | through the wrapper, the store is unchanged or has the value set, and has it set after a success |
| RustExecutor.ResilientKvStore.Delete | rust/src/resilience.rs:212-217 | the store is unchanged or without the key, and without it after a success |
| RustExecutor.ResilientKvStore.SetIfNotExists | rust/src/resilience.rs:226-239 | true means that the key was absent; after a success it is present, and an old value is never replaced |
| RetriedStores.AfterTwice | rust/src/sorted_set.rs:62-160 | add, remove and remove_range are idempotent, last-add order included |
| RetriedStores.SortedSetRetried | rust/src/resilience.rs:316-359 | a retried sorted-set write leaves the sets unchanged or changed exactly once, and once after a success |
| RetriedStores.ResilientSortedSetStore.Add | rust/src/resilience.rs:316-322 | through the wrapper, the sets are unchanged or have the member added once, and added after a success |
| RetriedStores.ResilientSortedSetStore.Remove | rust/src/resilience.rs:324-330 | the same for remove |
| RetriedStores.ResilientSortedSetStore.RemoveRange | rust/src/resilience.rs:354-359 | the same for remove_range; the count is that of the members in range, or zero |
| RetriedStores.RemoveRangeRetried | rust/src/sorted_set.rs:137-160 | the count a successful retried remove_range reports is right exactly if no earlier attempt took effect or nothing matched; otherwise it is 0 |
| RetriedStores.MemoryPutRetried | rust/src/blob.rs:45-55 | a retried put of the in-memory blob store leaves the map unchanged or with the blob put once, and put once after a success |
| RetriedStores.CutPutsAreRepaired | rust/src/blob.rs:122-137 | a completed put of the file-system store leaves the disk, and answers, as if the earlier attempts, cut off anywhere and leaving any bytes, had not been |
| RetriedStores.CutPutIsAllOrNothingIff | rust/src/blob.rs:122-155 | a get sees the old or the completed put for every cut that leaves a beginning of what was being written, exactly under a condition on the old blob, its sidecar, the new data and the new metadata |
| RetriedStores.LongDataIsTorn | rust/src/blob.rs:122-155 | a put of two bytes or more that writes a readable blob has a cut that a get sees as neither |
| Scores.TotalLeIsTotalOrder | rust/src/sorted_set.rs:34-38 | total_cmp is a total order on all scores, NaN and signed zeros included |
| Scores.TotalOrderInNumbers | rust/src/sorted_set.rs:34-38 | finite scores compare by value, negative zero is below zero, infinities are outside the numbers and NaNs outside the infinities, by payload |
| Scores.IeeeInNumbers | rust/src/sorted_set.rs:146 | finite scores compare by value with the zeros alike, infinities are outermost and NaN compares with nothing |
| Scores.OrdersDifferOnZeros | rust/src/sorted_set.rs:146 | without NaN the IEEE comparison differs from it only in taking the two zeros for equal |
| RecencyList.SortIsSortedPermutation | rust/src/sorted_set.rs:46-52 | the specification sort sorts, and keeps every entry |
| RecencyList.StableSortIsTheStableSort | rust/src/sorted_set.rs:46-52 | it is the only sequence sorted by score that keeps each tie group in last-add order |
| RecencyList.FilterSort | rust/src/sorted_set.rs:113 | selecting a range commutes with sorting |
| RecencyList.ScoresOfMembers | rust/src/sorted_set.rs:50-51 | the score map of a list holds exactly its entries, one per member |
| RecencyList.ScoresOfAdded | rust/src/sorted_set.rs:62-86 | re-adding a member replaces its score and keeps members distinct |
| RecencyList.RemovedRangeIsEmpty | rust/src/sorted_set.rs:137-160 | after remove_range the same range_by_score is empty for every set and limit exactly if neither bound is NaN |
| RecencyLaws.LiveInOrderOfAdding | rust/src/sorted_set.rs:62-160 | after any run of calls an entry is live exactly if some call added it and no later call replaced or removed it, and live entries stand in the order of those calls, so a member added again with its old score moves to the end |
| RecencyLaws.QueryInOrderOfAdding | rust/src/sorted_set.rs:62-160 | after any run of calls a range query shows exactly the live entries in range, by score, and those of one score in the order in which they were last added |
| RecencyLaws.FilterBefore | rust/src/sorted_set.rs:93-95 | what a call keeps stays in order |
| RecencyLaws.RangedInNumbers | rust/src/sorted_set.rs:113-122 | a query shows exactly the live entries in range, sorted; limit n cuts it after n entries, limit 0 after one |
| ScoreIndex.FlattenMembers | rust/src/sorted_set.rs:46-52 | an entry is in the flattened index exactly if its member is in the bucket of its score |
| ScoreIndex.PushIsStableInsert | rust/src/sorted_set.rs:79-83 | pushing on the bucket of a score is insertion into the stable sort |
| ScoreIndex.DroppedIsFilter | rust/src/sorted_set.rs:68-76 | taking a member out of its bucket, and an emptied bucket out of the map, removes just that member |
| ScoreIndex.RangeIsFilter | rust/src/sorted_set.rs:113 | the range iterator yields exactly the entries in range, in order |
| ScoreIndex.SurvivingIsFilter | rust/src/sorted_set.rs:142-157 | deleting the buckets in the IEEE range removes exactly the entries in it |
| SortedSet.IndexesAgree | rust/src/sorted_set.rs:46-52 | member m is in bucket s exactly if its recorded score is s, no bucket is empty, nobody is indexed twice, and the count is the sum of the bucket lengths |
| SortedSet.IndexIsDetermined | rust/src/sorted_set.rs:46-52 | the whole index is determined by the last-add order and the scores |
| SortedSet.MemorySortedSetStore.Add | rust/src/sorted_set.rs:62-86 | the member is cut out of its old place, if any, and put last with the new score, it ends the bucket of that score, and no other set changes; both indexes represent the new list |
| SortedSet.MemorySortedSetStore.Remove | rust/src/sorted_set.rs:88-100 | the member is cut out of its place and nothing else moves |
| SortedSet.MemorySortedSetStore.Collect | rust/src/sorted_set.rs:113-122 | the nested loop with its early return yields the first max(1, limit) entries of the buckets |
| SortedSet.MemorySortedSetStore.RangeByScore | rust/src/sorted_set.rs:102-126 | exactly the live entries in range, in the stable order of their scores, cut at max(1, limit): a limit of 0 gives one entry if anything matches; a panic exactly on an existing set with min above max in the total order |
| SortedSet.MemorySortedSetStore.Count | rust/src/sorted_set.rs:128-135 | the number of live members |
| SortedSet.MemorySortedSetStore.RemoveRange | rust/src/sorted_set.rs:137-160 | removes exactly the members in the IEEE range, keeps the order of the rest and returns the drop in count |
| SortedSet.MemorySortedSetStore.Score | rust/src/sorted_set.rs:162-169 | the score of exactly the live members |
| GoSortedSet.MemorySortedSet.Add | go/memory.go:150-158 | the plain map with the member's score set |
| GoSortedSet.MemorySortedSet.Remove | go/memory.go:160-167 | the plain map without the member |
| GoSortedSet.MemorySortedSet.RangeByScore | go/memory.go:169-191 | all entries in the IEEE range once each, sorted as sort.Slice may leave them, cut at the limit; a negative limit panics |
| GoSortedSet.MemorySortedSet.DeleteChosen | go/memory.go:204-210 | deleting while ranging over the map, in any order, deletes and counts exactly the members in range |
| GoSortedSet.MemorySortedSet.RemoveRange | go/memory.go:199-213 | the map without the members in the IEEE range, and their number |
| GoSortedSet.MemorySortedSet.Score | go/memory.go:215-226 | the score of exactly the members |
| GoSortedSet.StepSimulates | go/memory.go:150-213 | every operation keeps the two stores in step, for all scores |
| GoSortedSet.RunsAgree | go/memory.go:150-226 | after any run the stores agree on every member, score, count and removed count |
| GoSortedSet.SelectionsAgree | go/memory.go:169-180 | a query selects the same members from both exactly unless a zero bound meets the other zero in the set |
| GoSortedSet.RangesAgree | go/memory.go:169-191 | on ordinary scores both stores return the same members and, position by position, the same scores |
| GoSortedSet.LimitedRangesAgree | go/memory.go:186-188 | under a limit they return the same scores exactly unless the limit is 0 and something matches |
| GoSortedSet.RunQueriesAgree | go/memory.go:150-191 | after any run whose adds have ordinary scores every ordinary range query gives the same members and scores from both stores, and under a limit exactly unless it is 0 and something matches |
| Sorting.SortedIsUnique | go/memory.go:182-184 | a total order leaves one sorted arrangement of a multiset |
| Migrations.PendingIsFresh | go/postgres.go:106-113 | the pending migrations have new, distinct versions and cover the list |
| Migrations.NextIsPending | go/postgres.go:106-126 | a migrator that found everything earlier recorded and this version not is about to run exactly the next pending migration |
| Migrations.AllRecorded | go/postgres.go:106-129 | a migrator that reached the end of the list leaves nothing pending |
| Migrations.InvKept | go/postgres.go:95-130 | every step of every migrator, commits with lost acknowledgement included, keeps the log an advance of the initial one |
| Migrations.MigrationsCommitInOrder | rust/src/relational.rs:133-164 | over all runs of all migrators the log is the initial log and a prefix of the pending migrations, complete once someone succeeded |
| Migrations.NothingCommitsTwice | go/postgres.go:95-130 | no version is committed twice or again |
| Migrations.OnlyCommitsCount | go/postgres.go:72-92 | the database changes only in a commit of a version that is not recorded, which records it and appends its migration, acknowledged or not |
| Migrations.SucceedsAloneIff | go/postgres.go:95-130 | from every reachable state a migrator left alone succeeds without a fault, within 4 actions a migration and 2 more, exactly if nobody else has recorded the version of the transaction it is in |
| Migrations.AnyMigratorCanFinish | go/postgres.go:95-130 | from every reachable state any migrator can finish: at most it reports one failure and starts over, and then everything pending is committed, once |
| Migrator.PendingAfter | go/postgres.go:106-113 | after the first k pending migrations the pending ones are the rest |
| Migrator.AdvanceAgain | rust/src/relational.rs:145-161 | a retry, or another migrator, continues where the last one stopped |
| Migrator.Transaction | go/postgres.go:72-92 | succeeds exactly if none of begin, up_sql, insert and commit fails and no rival commits among them; a commit whose acknowledgement is lost takes effect all the same; otherwise only the rivals move the database |
| Migrator.Migrate | go/postgres.go:95-130 | with rivals between its statements and any faults, the loop leaves the database advanced by some pending migrations, by all on success; it fails only if its last statement failed or a rival committed inside its transaction, and succeeds when left alone |
| PubSub.InvKept | go/memory.go:244-292 | every step keeps the accounting of every message for every subscriber |
| PubSub.FanOut | go/memory.go:244-264 | in every reachable state each message addressed to a subscriber is exactly one of received, buffered, dropped and on its way, is accepted at most once, the buffer holds at most 100, and accepted messages of one publisher are in sending order |
| PubSub.NothingIsLostTwice | go/memory.go:244-264 | between publishes, addressed = received + buffered + dropped |
| PubSub.DropsOnlyWhenFull | go/memory.go:255-259 | a message is dropped only by its own send and only when the buffer holds exactly 100 |
| PubSub.StepOnInbox | go/memory.go:253-264 | in every reachable state only Receive hands over a message, the oldest buffered, and only a Send fills the buffer, with its message at the end while there are fewer than 100, else dropping it |
| PubSub.IdleKeepsFirstHundred | go/memory.go:253-270 | a subscriber that has not received yet holds the first 100 messages sent to it, and exactly the later ones were dropped |
| PubSub.AddToMembers | go/memory.go:270-276 | subscribing adds the subscriber to exactly the listed channels |
| PubSub.MemoryPubSub.Publish | go/memory.go:244-264 | in any visiting order, for every subscriber of the channel the message goes to the end of a buffer with fewer than 100 messages and is dropped otherwise, and nobody receives anything yet; nobody else is touched; the object stays a run of the machine |
| PubSub.MemoryPubSub.Receive | go/memory.go:266-278 | a receiver gets the oldest buffered message; nothing else changes |
| PubSub.MemoryPubSub.Subscribe | go/memory.go:266-278 | a new empty channel joins exactly the listed channels |
| PubSub.MemoryPubSub.Unsubscribe | go/memory.go:280-292 | the listed channels lose all their subscribers, not only the caller |
| Paths.NormAppended | rust/src/blob.rs:104-117 | however a key is spelt, its sidecar's path is its blob's path with the suffix |
| Paths.ResolvedInWords | rust/src/blob.rs:104-111 | a key is refused exactly if it contains two dots in a row; otherwise its leading slashes go and every backslash becomes a slash |
| Paths.NormOfComponents | rust/src/blob.rs:110 | the path of a key leaves out its empty components and single dots and keeps the others in order |
| Paths.SidecarIsBeside | rust/src/blob.rs:113-117 | a sidecar is recognised as one and lies in its blob's directory |
| Paths.StringLeIsOrder | rust/src/blob.rs:202 | string comparison is a total order |
| Paths.StringLeMeaning | rust/src/blob.rs:202 | a string is not behind another exactly if the other starts with it or it has the smaller character at the first difference |
| BlobStore.LocalBlobStore.Put | rust/src/blob.rs:122-137 | result and disk after a put, for every key that stays below the base however it is spelt, errors and partial effects included; a key with two dots in a row is refused and changes nothing |
| BlobStore.LocalBlobStore.Get | rust/src/blob.rs:139-155 | what a get answers, for every key that stays below the base however it is spelt and each shape of the disk |
| BlobStore.LocalBlobStore.Delete | rust/src/blob.rs:157-167 | for every key that stays below the base, the file and its sidecar are gone, directories stay; a refused key changes nothing |
| BlobStore.LocalBlobStore.VisitDir | rust/src/blob.rs:177-200 | one directory, read in any order, adds its sub-directories to the stack and its matching files to the results, once each |
| BlobStore.LocalBlobStore.List | rust/src/blob.rs:169-204 | the walk terminates on every tree and lists exactly the files that do not end in .meta.json and start with the prefix, once each, in the order of their first differences |
| BlobStore.WalkReachesAll | rust/src/blob.rs:177-181 | a walk with an empty stack has read every directory |
| BlobStore.ListingIsUnique | rust/src/blob.rs:68-78 | there is only one listing of a set of keys under a prefix |
| BlobStore.PutKeepsTree | rust/src/blob.rs:122-137 | a put keeps the disk a tree, whether or not it succeeds |
| BlobStore.PutThenGet | rust/src/blob.rs:122-155 | after a successful put on any tree a get answers exactly unless a directory has the sidecar's name, with the data put and the metadata put or, failing that, of the existing sidecar |
| BlobStore.MemoryBlobStore.List | rust/src/blob.rs:68-78 | exactly the keys that start with the prefix, once each, in the order of their first differences |
| BlobRefinement.StickyKeepsData | rust/src/blob.rs:43-66 | after any run the in-memory store holds the same keys and data as a map whose puts without metadata keep the old metadata |
| BlobRefinement.StepRefines | rust/src/blob.rs:122-167 | on compatible keys every put and delete succeeds and is the step of that map |
| BlobRefinement.NothingFails | rust/src/blob.rs:122-167 | no operation of a run with compatible keys fails |
| BlobRefinement.SecondPutFailsIff | rust/src/blob.rs:122-130 | of two different keys the second put fails exactly if one key is a directory of the other |
| BlobRefinement.GetsAgreeIff | rust/src/blob.rs:122-155 | for compatible keys, every get of the file-system store answers, at every moment of a run, what the in-memory store answers, exactly if no put without metadata replaces a blob that has some |
| BlobRefinement.FilesystemRefinesMemory | rust/src/blob.rs:122-204 | over any run of puts and deletes with compatible keys both stores list the same keys under every prefix, and every get answers, with the same data or with absence |

## Left out

- Redis, S3, pgx and sqlx backends, connection pools, URL parsing and presigned URLs: library behaviour that the sources do not show. The database of the migrations appears only through the assumptions stated in `Migrations`.
- Key-value stores and the Go blob map on their own: each operation is one assignment to a map, so there is no invariant or order to prove; the key-value map appears as a client of the retry layer. `memoryRelational` does nothing, health checks report fixed values.
- Configuration, backend selection and `proto/store.proto`: they connect the parts modelled here and compute nothing.
- The Rust in-memory pub/sub: its behaviour is that of tokio's broadcast channel.
- Instrumented wrappers, apart from the counters of the conservation law.
- Disk faults other than those caused by the shape of the tree, symbolic links and changes made by other processes. Directory permissions. Metadata is a value that its JSON form is assumed to preserve.
- BlobStore.LocalBlobStore.Put: not for keys that start with a backslash after their leading slashes, which become absolute paths.
- BlobStore.LocalBlobStore.Get: the same.
- BlobStore.LocalBlobStore.Delete: the same.
- Rounding of the f64 products in both backoffs, which are computed exactly here.
- The operation timeout appears as a failed attempt; how long an attempt runs is not modelled.
- Memory ordering of the relaxed atomic in the Rust breaker (steps interleave sequentially), and tasks dropped between two steps.
- Saturation of `time.Since` and of durations: clock readings are integers.
- RustExecutor.ResilientExecutor.Execute: an attempt is atomic, and one that timed out has no effect later; it runs one execute at a time, and overlapping calls are modelled in `RustBreaker`.
- GoBackoff.TotalWaitBounds: what an overflowing conversion gives is left to the implementation by Go, so no upper bound is stated for waits beyond the first that may overflow.
- OutageLaws.OutageLoadBound: not for outages in which a probe can meet the wrap of the counter; `OutageLaws.OutageLoadBoundIff` shows that the bound is lost there.
- OutageLaws.OutageLoadBoundIff: for int32 thresholds of at least 1 and 1 to 2^31 - 1 retries; with more retries one execute alone can go once around the counter.
- RustOutageLaws.OutageLoadBound: where the configuration does not always trip, for outages of fewer than 2^32 calls; `RustOutageLaws.OutageLoadBoundIff` shows that longer ones go over it.
- OutageLaws.OutageLoadBoundIsReached: for at least one retry, which is what the constructor allows.
- BlobRefinement.FilesystemRefinesMemory: compatibility of the keys is sufficient; for two keys `BlobRefinement.SecondPutFailsIff` shows the prefix condition to be exact.
