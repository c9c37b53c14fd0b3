/** The sample store shared by the benchmark workers: one latency slot per
    request (an `AtomicU64` initialised to 0), a completion counter whose
    pre-increment value hands out slot indices, and an error counter.  The
    atomics are modelled as plain fields updated one recording at a time. */
module Samples {
  import opened LatencyStats

  /** `Result<Duration, reqwest::Error>` of one request; `nanos` is `Duration::as_nanos`. */
  datatype Outcome = Success(nanos: nat) | Failure

  const U64_LIMIT: nat := 0x1_0000_0000_0000_0000

  /** `n as u64` applied to a `u128`: keeps the low 64 bits. */
  function AsU64(n: nat): (r: nat)
    ensures r < U64_LIMIT
    ensures n < U64_LIMIT ==> r == n
    ensures (n - r) % U64_LIMIT == 0
  {
    n % U64_LIMIT
  }

  /** What a slot holds once the request that took it has finished: its
      duration on success, the initial 0 on failure. */
  function SlotValue(o: Outcome): nat {
    match o
    case Success(nanos) => AsU64(nanos)
    case Failure => 0
  }

  /** The slots, in index order, after recording `log`. */
  function SlotValues(log: seq<Outcome>): (s: seq<nat>)
    ensures |s| == |log|
    ensures forall k :: 0 <= k < |log| ==> s[k] == SlotValue(log[k])
  {
    if log == [] then [] else SlotValues(log[..|log| - 1]) + [SlotValue(log[|log| - 1])]
  }

  function ErrorCount(log: seq<Outcome>): nat {
    if log == [] then 0 else ErrorCount(log[..|log| - 1]) + (if log[|log| - 1].Failure? then 1 else 0)
  }

  function SuccessCount(log: seq<Outcome>): nat {
    if log == [] then 0 else SuccessCount(log[..|log| - 1]) + (if log[|log| - 1].Success? then 1 else 0)
  }

  /** Every recorded outcome is either a success or an error, so errors never exceed completions. */
  lemma {:induction false} CountsAddUp(log: seq<Outcome>)
    ensures SuccessCount(log) + ErrorCount(log) == |log|
    ensures ErrorCount(log) <= |log|
  {
    if log != [] {
      CountsAddUp(log[..|log| - 1]);
    }
  }

  /** Failed requests leave their slots at 0, so the collected slice holds at
      least as many zero samples as there were errors. */
  lemma {:induction false} FailuresLeaveZeroSlots(log: seq<Outcome>)
    ensures CountAtMost(SlotValues(log), 0) >= ErrorCount(log)
  {
    if log != [] {
      var init := log[..|log| - 1];
      FailuresLeaveZeroSlots(init);
      assert SlotValues(log) == SlotValues(init) + [SlotValue(log[|log| - 1])];
      CountAtMostAppend(SlotValues(init), [SlotValue(log[|log| - 1])], 0);
    }
  }

  lemma {:induction false} AllFailuresCounted(log: seq<Outcome>)
    requires forall k :: 0 <= k < |log| ==> log[k].Failure?
    ensures ErrorCount(log) == |log|
    ensures forall k :: 0 <= k < |log| ==> SlotValues(log)[k] == 0
  {
    if log != [] {
      AllFailuresCounted(log[..|log| - 1]);
    }
  }

  lemma {:induction false} NoFailuresCounted(log: seq<Outcome>)
    requires forall k :: 0 <= k < |log| ==> log[k].Success?
    ensures ErrorCount(log) == 0
  {
    if log != [] {
      NoFailuresCounted(log[..|log| - 1]);
    }
  }

  class SampleStore {
    var latencies: array<nat>
    var counter: nat
    var errors: nat
    /** The outcome recorded under each index handed out so far, in index order. */
    ghost var log: seq<Outcome>

    ghost predicate Valid()
      reads this, latencies
    {
      && counter == |log|
      && errors == ErrorCount(log)
      && (forall k :: 0 <= k < latencies.Length ==>
            latencies[k] == if k < |log| then SlotValue(log[k]) else 0)
      && (forall k :: latencies.Length <= k < |log| ==> log[k].Failure?)
    }

    /** The store of `main` (bench/src/main.rs:169-171): `totalRequests` zero
        slots and both counters at 0. */
    constructor (totalRequests: nat)
      ensures Valid() && fresh(latencies)
      ensures latencies.Length == totalRequests
      ensures log == [] && counter == 0 && errors == 0
      ensures forall k :: 0 <= k < totalRequests ==> latencies[k] == 0
    {
      latencies := new nat[totalRequests](_ => 0);
      counter := 0;
      errors := 0;
      log := [];
    }

    /** Records one finished request: takes the pre-increment counter as the
        slot index, then stores the duration there or counts the error.
        Indexing `latencies[idx]` panics when out of bounds, so only a
        success needs a free slot. */
    method Record(outcome: Outcome) returns (idx: nat)
      requires Valid()
      requires outcome.Success? ==> counter < latencies.Length
      modifies this, latencies
      ensures Valid() && latencies == old(latencies)
      ensures idx == old(counter) && counter == old(counter) + 1
      ensures log == old(log) + [outcome]
      ensures outcome.Success? ==>
                latencies[..] == old(latencies[..])[idx := AsU64(outcome.nanos)] && errors == old(errors)
      ensures outcome.Failure? ==>
                latencies[..] == old(latencies[..]) && errors == old(errors) + 1
    {
      idx := counter;
      counter := counter + 1;
      if outcome.Success? {
        latencies[idx] := AsU64(outcome.nanos);
      } else {
        errors := errors + 1;
      }
      log := log + [outcome];
      assert log[..|log| - 1] == old(log);
    }

    /** Loads every slot, in index order, into the slice handed to the reducer. */
    method Collect() returns (v: seq<nat>)
      requires Valid()
      ensures |v| == latencies.Length
      ensures forall k :: 0 <= k < |v| ==> v[k] == if k < |log| then SlotValue(log[k]) else 0
      ensures |log| == latencies.Length ==> v == SlotValues(log)
    {
      v := latencies[..];
    }
  }
}
