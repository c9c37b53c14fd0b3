# Load-test harness and KV state machine, modelled in Dafny

This project models the sequential core of a small benchmark suite:

- **The benchmark client** (`bench/src/main.rs`). Several workers send HTTP
  writes or reads to a key-value service. Each worker records the outcome
  of every request in a shared sample store. The store holds one latency
  slot per request, a completion counter whose pre-increment value picks
  the slot, and an error counter. When the counter reaches the total, the
  controller reduces the slots to a `BenchResult`: sorted-copy percentiles
  P50/P95/P99 at index `len * p / 100`, and an "average" equal to the wall
  time divided by the request count truncated to `u32`.
- **The service's replicated state machine** (`statemachine.go`). It is an
  in-memory `map[string]string`. `Update` applies a decoded `Set` command
  and returns the entry index. `Lookup` returns the mapped value, or Go's
  zero value `""`.

Modules, one per component:

| file | module | models |
|---|---|---|
| format.dfy | `Format` | decimal rendering of `usize` by `format!`, and the `prefix{a}_{b}` strings |
| latency_stats.dfy | `LatencyStats` | `BenchResult::new`: sort, percentiles, truncating cast, `Duration / u32` |
| workload.dfy | `Workload` | key/value derivation, mode selection, and the request each iteration sends |
| samples.dfy | `Samples` | the sample store (class over an `array<nat>` plus two counters), recording and collection |
| bench.dfy | `Bench` | the worker loop `client_task` and the controller part of `main` |
| kv_state_machine.dfy | `KvStateMachine` | `KVStateMachine` (class over a `map<string, string>`), `Update`, `Lookup` |

Durations are `nat` nanosecond counts. The code's integer truncations are
written out: `total_requests as u32` is `AsU32`, and `as_nanos() as u64` is
`AsU64`. Three panics of the source are kept as preconditions, because no
caller can recover from them: division of a `Duration` by zero, an index
into an empty slice, and a success recorded past the end of the slot array.
When `clients * requests > 0`, an unknown mode makes every worker panic on
its first iteration. The controller's polling loop then never ends;
`RunBench` reports this as `WaitsForever`. When `requests == 0` no worker
iterates, so none panics: the polling loop exits at once and the main
thread panics at the division by the zero total (`MainPanics`).

The model follows the code in three places that are easy to miss:

- The code does not drop zero slots before sorting. Failed requests leave
  their slot at 0, and those zeros take part in the percentiles
  (`FailuresLeaveZeroSlots`). If every request fails, all three percentiles
  are 0 (`AllFailedReport`).
- The code does not clamp the percentile index or return zero for an
  empty sample. It panics instead; the model has a precondition.
- The code does not guard the average against zero requests. It divides by
  `total_requests as u32` and panics when that is 0, which happens for
  zero requests and also for any multiple of 2^32.

`Vec::sort` is modelled by an insertion sort (`Sort`).
`SortedPermutationUnique` shows that any correct sort must return the same
sequence, so the choice of algorithm does not matter. The percentiles also
get a definition that does not depend on sorting: `IsRank` says a value
has rank `k` when at most `k` samples are below it and more than `k` are
at or below it. `BenchResultPercentilesAreRanks` proves that each reported
percentile has rank `len * p / 100`, and `RankUnique` proves that only one
value can have a given rank.

## Model

| member | source | states |
|---|---|---|
| Format.TaggedEncodes | bench/src/main.rs:123-124 | the string starts with the prefix, and after it the digits before the first `_` read back as the first number and the digits after it as the second |
| Format.NatToString | bench/src/main.rs:123-124 | the rendering is non-empty, all decimal digits, and starts with `0` exactly when the number is 0 (then it is `"0"`) |
| Format.ParseNatToString | bench/src/main.rs:123-124 | reading the rendered digits back yields the number (round trip) |
| Format.NatToStringInjective | bench/src/main.rs:123-124 | different numbers render differently |
| Format.TaggedInjective | bench/src/main.rs:123-124 | `prefix{a}_{b}` determines both `a` and `b` |
| Workload.KeyEncodes | bench/src/main.rs:123 | the key is `key_` followed by the client id in decimal, `_`, and the iteration index in decimal, each readable back |
| Workload.ValueEncodes | bench/src/main.rs:124 | the value is `value_` followed by the client id in decimal, `_`, and the iteration index in decimal, each readable back |
| Workload.KeyInjective | bench/src/main.rs:123 | `key_{c}_{i}` is different for different (client, iteration) pairs |
| Workload.ValueInjective | bench/src/main.rs:124 | `value_{c}_{i}` is different for different (client, iteration) pairs |
| Workload.SelectOp | bench/src/main.rs:126-137 | "write" always writes, "read" always reads, "mixed" writes iff the draw is below the ratio, and any other mode is the panic case |
| Workload.RequestFor | bench/src/main.rs:127-134 | a write sends the iteration's key and value; a read sends the iteration's key |
| Workload.RequestKeysDistinct | bench/src/main.rs:123-134 | two different iterations never send the same key, in any mode |
| LatencyStats.Insert | bench/src/main.rs:53 | inserting into a sorted sequence keeps it sorted and adds exactly one occurrence of the element |
| LatencyStats.Sort | bench/src/main.rs:52-53 | the sorted copy is ascending, a permutation of the input, and the same length; the input is a value and is not changed |
| LatencyStats.SortedPermutationUnique | bench/src/main.rs:53 | two ascending permutations of the same samples are equal, so every correct sort gives this copy |
| LatencyStats.CountsOfSort | bench/src/main.rs:52-53 | sorting keeps the number of samples below and at or below any value |
| LatencyStats.RankInSorted | bench/src/main.rs:58-60 | in an ascending sequence, the element at index `k` has rank `k` |
| LatencyStats.RankUnique | bench/src/main.rs:58-60 | at most one value has a given rank |
| LatencyStats.PercentileIndex | bench/src/main.rs:58-60 | `len * p / 100` is in bounds for a non-empty slice and `p < 100`, and is the floor of `len * p / 100` |
| LatencyStats.PercentileIndexMonotone | bench/src/main.rs:58-60 | the percentile index does not decrease as `p` grows |
| LatencyStats.Percentile | bench/src/main.rs:58-60 | the picked element has rank `len * p / 100` in the sorted copy |
| LatencyStats.PercentileMonotone | bench/src/main.rs:58-60 | for `p <= q` the p-th percentile is at most the q-th |
| LatencyStats.AsU32 | bench/src/main.rs:56 | `as u32` keeps the value modulo 2^32, so values below 2^32 are unchanged |
| LatencyStats.DivDuration | bench/src/main.rs:56 | dividing a duration by a non-zero `u32` gives the floor of the quotient |
| LatencyStats.NewBenchResult | bench/src/main.rs:51-72 | with a non-zero truncated divisor and a non-empty slice: counts and wall time are copied; `avg` is the floor of wall time over `total_requests as u32`; each percentile is one of the samples; P50 <= P95 <= P99 |
| LatencyStats.BenchResultPercentilesAreRanks | bench/src/main.rs:52-60 | P50/P95/P99 are the input samples of rank `len*50/100`, `len*95/100` and `len*99/100` |
| Samples.AsU64 | bench/src/main.rs:143 | `as_nanos() as u64` keeps the value modulo 2^64 |
| Samples.SlotValues | bench/src/main.rs:141-148 | after recording a log, slot `k` holds the truncated duration of outcome `k` on success and 0 on failure |
| Samples.CountsAddUp | bench/src/main.rs:140-147 | successes plus errors equal the number of recordings, so errors never exceed the counter |
| Samples.FailuresLeaveZeroSlots | bench/src/main.rs:145-147 | the collected slots hold at least as many zeros as there are errors |
| Samples.SampleStore.constructor | bench/src/main.rs:169-171 | the store starts with `total_requests` zero slots, counter 0 and no errors |
| Samples.SampleStore.Record | bench/src/main.rs:140-148 | the slot index is the counter's old value and the counter grows by 1; a success changes only that slot, to the duration; a failure changes only the error count, by 1 |
| Samples.SampleStore.Collect | bench/src/main.rs:221 | the collected slice has one entry per slot, and when every slot was handed out it equals the slot values of the log |
| Bench.ClientIteration | bench/src/main.rs:122-148 | an unknown mode panics before anything is recorded; otherwise the iteration sends the request for its key, value and selected operation, appends its outcome to the log, and takes the counter's old value as its slot |
| Bench.ClientTask | bench/src/main.rs:122-149 | an unknown mode panics on the first iteration and records nothing; otherwise the loop appends exactly its outcomes to the log, takes consecutive slots starting at the old counter, and sends the request for each iteration's key, value and selected operation |
| Bench.SpawnClient | bench/src/main.rs:185-207 | the worker with client id `c` appends exactly its own outcomes after those of the workers before it, and takes the slots from `c * requests` on |
| Bench.SpawnClients | bench/src/main.rs:183-208 | with a known mode, the log is every worker's outcomes in order, and iteration `i` of client `c` takes slot `c * requests + i`; with an unknown mode nothing is recorded |
| Bench.SlotAssignmentBijective | bench/src/main.rs:167-170 | the slots taken are all below `total_requests`, no slot is taken twice, and every slot is taken |
| Bench.RunBench | bench/src/main.rs:167-226 | the final counter is `clients * requests` for a known mode and 0 otherwise; the run waits forever iff the counter stays below the total; the slice handed to the reducer has length `total_requests`; the error count is the number of failures and at most the counter; the main thread panics iff the truncated total is 0; otherwise the report is `NewBenchResult` of those values |
| Bench.AllFailedReport | bench/src/main.rs:51-60 | if every request fails, the error count is the total and P50, P95 and P99 are 0 |
| Bench.AllSucceededReport | bench/src/main.rs:51-60 | if every request succeeds, the error count is 0 and the percentiles are measured durations |
| KvStateMachine.NextData | statemachine.go:43-50 | a decoded `Set` maps its key to its value and leaves every other key as it was; any other command leaves the map unchanged |
| KvStateMachine.ApplyLogLastWriteWins | statemachine.go:35-51 | after applying a log of entries, a key holds the value of its last `Set`, or its old mapping if no entry sets it |
| KvStateMachine.KVStateMachine.constructor | statemachine.go:27-31 | a new state machine has an empty map |
| KvStateMachine.KVStateMachine.Update | statemachine.go:35-51 | an undecodable command returns an error and leaves data unchanged; a `Set` writes its key and returns the entry index; a command without `Set` returns 0 and leaves data unchanged |
| KvStateMachine.KVStateMachine.Lookup | statemachine.go:54-63 | a string key returns its mapped value, or `""` if it is missing; a non-string query returns `""`; nothing is changed |
| KvStateMachine.LookupOnFreshMachine | statemachine.go:27-63 | every lookup on a new state machine returns `""` |
| KvStateMachine.SetTwiceThenLookup | statemachine.go:35-63 | after two `Set`s of the same key, both return their entry index and a lookup returns the second value |

## Left out

- `throughput` (bench/src/main.rs:55) is a floating-point quotient and is not a field of the modelled `BenchResult`.
- `perform_write` and `perform_read` (bench/src/main.rs:88-104) do HTTP and clock reads. The outcome of each request is an input (`Outcome`), and the request sent is returned as a `Request` value.
- The draw `rand::random::<f64>() < write_ratio` (bench/src/main.rs:130) is a floating-point random value. It is an abstract boolean per iteration.
- The tokio runtime, task spawning, the `Barrier` and the `SeqCst` atomics (bench/src/main.rs:168-211) are concurrency. The store is a sequential object, and the workers run one after another.
- RunBench: the slice and error count it hands to the reducer are exact only under that sequential schedule. In the code, a worker increments the counter (bench/src/main.rs:140) before it stores its slot (143) or counts its error (146). So `main` can leave the polling loop (214) and load the slots and errors (221-223) before the last workers' stores land. The model does not capture that interleaving.
- SpawnClients: because of that schedule, the slot of each (client, iteration) pair is fixed at `c * requests + i`. Under real concurrency, slots follow the order in which the atomic increments happen. The bijection onto the slots holds either way, but only this schedule is proved.
- The sleeping in the polling loop (bench/src/main.rs:214-216) is timing. Only its exit condition is modelled (`WaitsForever`).
- Argument parsing, the configuration printout and `BenchResult::print` (bench/src/main.rs:74-84, 154-164) are formatting and I/O.
- Setup failures of `Builder::build` and `Client::builder().build()` (bench/src/main.rs:174, 180) are foreign code and are not modelled. This includes the tokio panic for zero worker threads. That case has `clients == 0`, which the model already ends in `MainPanics`.
- Machine-width overflow that the model cannot reach in practice is not modelled, because the values are unbounded naturals: `clients * requests` in `usize`, `len * p` in `usize`, the `u64` completion counter and its `as usize` cast.
- The wall time comes from `Instant` and is an input (`totalTime`). A `Duration` is its nanosecond count.
- main.go is not part of this model: the Dragonboat node setup, the HTTP handlers, proposals and reads are network I/O through a foreign library.
- JSON decoding of `entry.Cmd` (statemachine.go:39) is foreign. The decoded command is an input (`Command`).
- `SaveSnapshot`, `RecoverFromSnapshot` and `Close` (statemachine.go:65-77) are JSON streams over `io`. They are not modelled.
- The `sync.RWMutex` of the state machine is concurrency. The state machine is single-threaded here.
