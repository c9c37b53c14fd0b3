/** The benchmark run: each worker's request loop (`client_task`) and the
    controller (`main`) that sizes the sample store, waits for the completion
    counter and hands the collected slots to `BenchResult::new`.  Workers run
    one after another; the HTTP outcome and the random draw of every
    iteration are inputs. */
module Bench {
  import opened LatencyStats
  import opened Workload
  import opened Samples

  /** How a worker task ends: after all its iterations, with the requests it
      sent in order, or by the `panic!` on an unknown mode. */
  datatype TaskResult = Finished(sent: seq<Request>) | Panicked

  /** How the controller ends: with a report, spinning forever in the polling
      loop because the counter never reaches the total, or by a panic in
      `BenchResult::new`. */
  datatype RunOutcome = Completed(result: BenchResult) | WaitsForever | MainPanics

  /** What one iteration of a worker ends with: the request it sent, or the
      `panic!` on an unknown mode. */
  datatype Step = Sent(request: Request) | ModePanic

  /** One iteration of `client_task`: derive the key and value, select the
      operation, send the request and record its outcome.  On an unknown mode
      it panics before sending or recording anything; otherwise it takes the
      slot `idx` the counter hands out. */
  method ClientIteration(store: SampleStore, clientId: nat, i: nat, mode: string,
                         draw: bool, outcome: Outcome)
    returns (step: Step, ghost idx: nat)
    requires store.Valid()
    requires outcome.Success? ==> store.counter < store.latencies.Length
    modifies store, store.latencies
    ensures store.Valid() && store.latencies == old(store.latencies)
    ensures step.ModePanic? <==> !KnownMode(mode)
    ensures step.ModePanic? ==> store.log == old(store.log)
    ensures step.Sent? ==> step.request == RequestFor(clientId, i, SelectOp(mode, draw).op)
    ensures step.Sent? ==> store.log == old(store.log) + [outcome] && idx == old(store.counter)
  {
    var selection := SelectOp(mode, draw);
    if selection.UnknownMode? {
      return ModePanic, 0;
    }
    var request := RequestFor(clientId, i, selection.op);
    idx := store.Record(outcome);
    step := Sent(request);
  }

  /** `client_task` after the barrier: `requests` iterations, each deriving its
      key and value, selecting an operation and recording the outcome.
      `draws[i]` is the mixed-mode draw of iteration `i`, `outcomes[i]` what
      the server made of its request. */
  method ClientTask(store: SampleStore, clientId: nat, requests: nat, mode: string,
                    draws: seq<bool>, outcomes: seq<Outcome>)
    returns (r: TaskResult, ghost slots: seq<nat>)
    requires store.Valid()
    requires |draws| == requests && |outcomes| == requests
    requires forall j :: 0 <= j < requests && outcomes[j].Success? ==>
               store.counter + j < store.latencies.Length
    modifies store, store.latencies
    ensures store.Valid() && store.latencies == old(store.latencies)
    ensures r.Panicked? <==> requests > 0 && !KnownMode(mode)
    ensures r.Panicked? ==> store.log == old(store.log)
    ensures r.Finished? ==> store.log == old(store.log) + outcomes
    ensures r.Finished? ==> |r.sent| == requests
    ensures r.Finished? ==> forall i :: 0 <= i < requests ==>
              r.sent[i] == RequestFor(clientId, i, SelectOp(mode, draws[i]).op)
    ensures r.Finished? ==> slots == Consecutive(old(store.counter), requests)
  {
    var sent: seq<Request> := [];
    slots := [];
    ghost var log0 := store.log;
    for i := 0 to requests
      invariant store.Valid() && store.latencies == old(store.latencies)
      invariant i > 0 ==> KnownMode(mode)
      invariant store.log == log0 + outcomes[..i]
      invariant sent == if i == 0 then [] else Issued(clientId, mode, draws[..i])
      invariant slots == Consecutive(|log0|, i)
    {
      var step, idx := ClientIteration(store, clientId, i, mode, draws[i], outcomes[i]);
      if step.ModePanic? {
        return Panicked, slots;
      }
      PrefixGrows(outcomes, i);
      IssuedGrows(clientId, mode, draws, i);
      ConsecutiveGrows(|log0|, i);
      sent := sent + [step.request];
      slots := slots + [idx];
    }
    assert outcomes[..requests] == outcomes;
    assert draws[..requests] == draws;
    r := Finished(sent);
  }

  /** A prefix one longer ends in the next element. */
  lemma PrefixGrows(s: seq<Outcome>, i: nat)
    requires i < |s|
    ensures s[..i + 1] == s[..i] + [s[i]]
  {
  }

  /** The requests a worker in a known mode sends for the draws `draws`,
      iteration by iteration. */
  function Issued(clientId: nat, mode: string, draws: seq<bool>): (s: seq<Request>)
    requires KnownMode(mode)
    ensures |s| == |draws|
    ensures forall i :: 0 <= i < |draws| ==> s[i] == RequestFor(clientId, i, SelectOp(mode, draws[i]).op)
  {
    seq(|draws|, (i: int) requires 0 <= i < |draws| => RequestFor(clientId, i, SelectOp(mode, draws[i]).op))
  }

  /** One more iteration appends its request. */
  lemma IssuedGrows(clientId: nat, mode: string, draws: seq<bool>, i: nat)
    requires KnownMode(mode) && i < |draws|
    ensures Issued(clientId, mode, draws[..i + 1]) ==
            (if i == 0 then [] else Issued(clientId, mode, draws[..i])) + [RequestFor(clientId, i, SelectOp(mode, draws[i]).op)]
  {
  }

  /** The slot indices `start`, `start + 1`, ..., `start + n - 1`. */
  function Consecutive(start: nat, n: nat): (s: seq<nat>)
    ensures |s| == n && forall j :: 0 <= j < n ==> s[j] == start + j
  {
    seq(n, j => start + j)
  }

  /** One more recording takes the next slot. */
  lemma ConsecutiveGrows(start: nat, n: nat)
    ensures Consecutive(start, n + 1) == Consecutive(start, n) + [start + n]
  {
  }

  /** The outcomes of all workers, client 0 first. */
  function Concat(runs: seq<seq<Outcome>>): seq<Outcome> {
    if runs == [] then [] else Concat(runs[..|runs| - 1]) + runs[|runs| - 1]
  }

  lemma {:induction false} ConcatLength(runs: seq<seq<Outcome>>, requests: nat)
    requires forall c :: 0 <= c < |runs| ==> |runs[c]| == requests
    ensures |Concat(runs)| == |runs| * requests
  {
    if runs != [] {
      ConcatLength(runs[..|runs| - 1], requests);
      assert |runs| * requests == (|runs| - 1) * requests + requests;
    }
  }

  /** One more worker's outcomes extend the log of those before it; the ones
      before client `c` fill the first `c * requests` slots. */
  lemma ConcatPrefix(runs: seq<seq<Outcome>>, c: nat, requests: nat)
    requires c < |runs|
    requires forall c' :: 0 <= c' < |runs| ==> |runs[c']| == requests
    ensures Concat(runs[..c + 1]) == Concat(runs[..c]) + runs[c]
    ensures |Concat(runs[..c])| == c * requests
  {
    assert runs[..c + 1][..c] == runs[..c];
    ConcatLength(runs[..c], requests);
  }

  /** The slot that iteration `i` of client `c` takes when the workers run one
      after another. */
  function SlotOf(c: nat, i: nat, requests: nat): nat {
    FirstSlot(c, requests) + i
  }

  /** The first slot of client `c`: the workers before it took `c * requests`. */
  function FirstSlot(c: nat, requests: nat): nat {
    c * requests
  }

  /** The slots of client `c` fit inside a store of `clients * requests` slots. */
  lemma ClientSlotsFit(c: nat, clients: nat, requests: nat)
    requires c < clients
    ensures c * requests + requests <= clients * requests
  {
    assert (c + 1) * requests <= clients * requests;
  }

  lemma SlotOfInRange(c: nat, i: nat, clients: nat, requests: nat)
    requires c < clients && i < requests
    ensures SlotOf(c, i, requests) < clients * requests
  {
    ClientSlotsFit(c, clients, requests);
  }

  lemma SlotOfInjective(c1: nat, i1: nat, c2: nat, i2: nat, requests: nat)
    requires i1 < requests && i2 < requests
    requires SlotOf(c1, i1, requests) == SlotOf(c2, i2, requests)
    ensures c1 == c2 && i1 == i2
  {
    if c1 < c2 {
      ClientSlotsFit(c1, c2, requests);
    } else if c2 < c1 {
      ClientSlotsFit(c2, c1, requests);
    }
  }

  /** Every slot of the store is taken by some (client, iteration) pair. */
  lemma SlotOfOnto(k: nat, clients: nat, requests: nat)
    requires k < clients * requests
    ensures requests > 0 && k / requests < clients && k % requests < requests
    ensures SlotOf(k / requests, k % requests, requests) == k
  {
    assert (k / requests) * requests <= k < clients * requests;
  }

  /** Some (client, iteration) pair took slot `k`. */
  ghost predicate Taken(slotOf: seq<seq<nat>>, k: nat, clients: nat, requests: nat)
    requires |slotOf| == clients && forall c :: 0 <= c < clients ==> |slotOf[c]| == requests
  {
    exists c, i :: 0 <= c < clients && 0 <= i < requests && slotOf[c][i] == k
  }

  /** The slots of every worker when the workers run one after another:
      client `c` takes the `requests` slots from `FirstSlot(c, requests)` on. */
  function Schedule(clients: nat, requests: nat): (s: seq<seq<nat>>)
    ensures |s| == clients
    ensures forall c :: 0 <= c < clients ==>
              s[c] == Consecutive(FirstSlot(c, requests), requests) && |s[c]| == requests
  {
    seq(clients, (c: int) requires 0 <= c => Consecutive(FirstSlot(c, requests), requests))
  }

  /** Running one more worker appends its slots to the schedule. */
  lemma ScheduleGrows(c: nat, requests: nat)
    ensures Schedule(c + 1, requests) == Schedule(c, requests) + [Consecutive(FirstSlot(c, requests), requests)]
  {
  }

  /** The slots taken under the one-after-another schedule are all inside the
      store, pairwise distinct, and cover every slot. */
  lemma SlotAssignmentBijective(slotOf: seq<seq<nat>>, clients: nat, requests: nat)
    requires slotOf == Schedule(clients, requests)
    ensures forall c, i :: 0 <= c < clients && 0 <= i < requests ==> slotOf[c][i] < clients * requests
    ensures forall c1, i1, c2, i2 ::
              (0 <= c1 < clients && 0 <= i1 < requests && 0 <= c2 < clients && 0 <= i2 < requests &&
               slotOf[c1][i1] == slotOf[c2][i2]) ==> c1 == c2 && i1 == i2
    ensures forall k :: 0 <= k < clients * requests ==> Taken(slotOf, k, clients, requests)
  {
    forall c1, i1, c2, i2 | 0 <= c1 < clients && 0 <= i1 < requests && 0 <= c2 < clients &&
        0 <= i2 < requests && slotOf[c1][i1] == slotOf[c2][i2]
      ensures c1 == c2 && i1 == i2
    {
      SlotOfInjective(c1, i1, c2, i2, requests);
    }
    forall c, i | 0 <= c < clients && 0 <= i < requests
      ensures slotOf[c][i] < clients * requests
    {
      SlotOfInRange(c, i, clients, requests);
    }
    forall k | 0 <= k < clients * requests
      ensures Taken(slotOf, k, clients, requests)
    {
      SlotOfOnto(k, clients, requests);
      assert slotOf[k / requests][k % requests] == k;
    }
  }

  /** One spawned worker, run to its end: client id `c` with its draws and
      outcomes, appending to the log of the workers before it. */
  method SpawnClient(store: SampleStore, c: nat, clients: nat, requests: nat, mode: string,
                     draws: seq<seq<bool>>, outcomes: seq<seq<Outcome>>)
    returns (ghost slots: seq<nat>)
    requires c < clients && |draws| == clients && |outcomes| == clients
    requires forall c' :: 0 <= c' < clients ==> |draws[c']| == requests && |outcomes[c']| == requests
    requires store.Valid() && store.latencies.Length == clients * requests
    requires store.log == if KnownMode(mode) then Concat(outcomes[..c]) else []
    modifies store, store.latencies
    ensures store.Valid() && store.latencies == old(store.latencies)
    ensures store.log == if KnownMode(mode) then Concat(outcomes[..c + 1]) else []
    ensures KnownMode(mode) ==> slots == Consecutive(FirstSlot(c, requests), requests) && |slots| == requests
  {
    ConcatPrefix(outcomes, c, requests);
    ClientSlotsFit(c, clients, requests);
    var task;
    task, slots := ClientTask(store, c, requests, mode, draws[c], outcomes[c]);
  }

  /** The spawning loop of `main`, with each worker run to its end before the
      next starts: worker `c` gets client id `c`, its draws and its outcomes. */
  method SpawnClients(store: SampleStore, clients: nat, requests: nat, mode: string,
                      draws: seq<seq<bool>>, outcomes: seq<seq<Outcome>>)
    returns (ghost slotOf: seq<seq<nat>>)
    requires store.Valid() && store.log == []
    requires store.latencies.Length == clients * requests
    requires |draws| == clients && |outcomes| == clients
    requires forall c :: 0 <= c < clients ==> |draws[c]| == requests && |outcomes[c]| == requests
    modifies store, store.latencies
    ensures store.Valid() && store.latencies == old(store.latencies)
    ensures store.log == if KnownMode(mode) then Concat(outcomes) else []
    ensures KnownMode(mode) ==> slotOf == Schedule(clients, requests)
  {
    slotOf := [];
    var c := 0;
    while c < clients
      invariant 0 <= c <= clients
      invariant store.Valid() && store.latencies == old(store.latencies)
      invariant store.log == if KnownMode(mode) then Concat(outcomes[..c]) else []
      invariant KnownMode(mode) ==> slotOf == Schedule(c, requests)
    {
      ScheduleGrows(c, requests);
      ghost var slots := SpawnClient(store, c, clients, requests, mode, draws, outcomes);
      slotOf := slotOf + [slots];
      c := c + 1;
    }
    assert outcomes[..clients] == outcomes;
  }

  /** `main` from the allocation of the store to `BenchResult::new`.
      `totalTime` is the measured wall time.  Besides the outcome it returns
      the final completion counter and, when the polling loop ends, the
      collected slice and error count handed to `BenchResult::new`; `slotOf`
      is the slot each (client, iteration) pair took. */
  method RunBench(clients: nat, requests: nat, mode: string,
                  draws: seq<seq<bool>>, outcomes: seq<seq<Outcome>>, totalTime: nat)
    returns (run: RunOutcome, finalCounter: nat, latenciesVec: seq<nat>, errorsCount: nat,
             ghost slotOf: seq<seq<nat>>)
    requires |draws| == clients && |outcomes| == clients
    requires forall c :: 0 <= c < clients ==> |draws[c]| == requests && |outcomes[c]| == requests
    ensures finalCounter == if KnownMode(mode) then clients * requests else 0
    ensures run.WaitsForever? <==> finalCounter < clients * requests
    ensures !run.WaitsForever? ==> latenciesVec == SlotValues(Concat(outcomes))
    ensures !run.WaitsForever? ==> |latenciesVec| == clients * requests
    ensures !run.WaitsForever? ==> errorsCount == ErrorCount(Concat(outcomes)) <= finalCounter
    ensures run.MainPanics? <==> !run.WaitsForever? && AsU32(clients * requests) == 0
    ensures run.Completed? ==>
              run.result == NewBenchResult(clients * requests, totalTime, latenciesVec, errorsCount)
    ensures KnownMode(mode) ==> |slotOf| == clients && forall c :: 0 <= c < clients ==> |slotOf[c]| == requests
    ensures KnownMode(mode) ==> forall c, i :: 0 <= c < clients && 0 <= i < requests ==>
              slotOf[c][i] < clients * requests
    ensures KnownMode(mode) ==> forall c1, i1, c2, i2 ::
              (0 <= c1 < clients && 0 <= i1 < requests && 0 <= c2 < clients && 0 <= i2 < requests &&
               slotOf[c1][i1] == slotOf[c2][i2]) ==> c1 == c2 && i1 == i2
    ensures KnownMode(mode) ==> forall k :: 0 <= k < clients * requests ==> Taken(slotOf, k, clients, requests)
  {
    var total := clients * requests;
    var store := new SampleStore(total);
    slotOf := SpawnClients(store, clients, requests, mode, draws, outcomes);
    ConcatLength(outcomes, requests);
    if KnownMode(mode) {
      SlotAssignmentBijective(slotOf, clients, requests);
    }
    finalCounter := store.counter;
    if finalCounter < total {
      // the polling loop `while counter.load(..) < total_requests` never exits
      run, latenciesVec, errorsCount := WaitsForever, [], 0;
      return;
    }
    latenciesVec := store.Collect();
    errorsCount := store.errors;
    CountsAddUp(store.log);
    if AsU32(total) == 0 {
      run := MainPanics;
    } else {
      run := Completed(NewBenchResult(total, totalTime, latenciesVec, errorsCount));
    }
  }

  /** When every request fails, every slot stays 0: the report counts every
      request as an error and shows zero for all three percentiles. */
  lemma AllFailedReport(log: seq<Outcome>, totalTime: nat)
    requires |log| > 0 && AsU32(|log|) != 0
    requires forall k :: 0 <= k < |log| ==> log[k].Failure?
    ensures var r := NewBenchResult(|log|, totalTime, SlotValues(log), ErrorCount(log));
            r.errors == |log| && r.p50 == 0 && r.p95 == 0 && r.p99 == 0
  {
    AllFailuresCounted(log);
  }

  /** When every request succeeds there are no errors, and each percentile is
      the (64-bit) duration of some request. */
  lemma AllSucceededReport(log: seq<Outcome>, totalTime: nat)
    requires |log| > 0 && AsU32(|log|) != 0
    requires forall k :: 0 <= k < |log| ==> log[k].Success?
    ensures var r := NewBenchResult(|log|, totalTime, SlotValues(log), ErrorCount(log));
            && r.errors == 0
            && (exists k :: 0 <= k < |log| && r.p50 == AsU64(log[k].nanos))
            && (exists k :: 0 <= k < |log| && r.p95 == AsU64(log[k].nanos))
            && (exists k :: 0 <= k < |log| && r.p99 == AsU64(log[k].nanos))
  {
    NoFailuresCounted(log);
    var r := NewBenchResult(|log|, totalTime, SlotValues(log), ErrorCount(log));
    var k50 :| 0 <= k50 < |log| && SlotValues(log)[k50] == r.p50;
    var k95 :| 0 <= k95 < |log| && SlotValues(log)[k95] == r.p95;
    var k99 :| 0 <= k99 < |log| && SlotValues(log)[k99] == r.p99;
  }
}
