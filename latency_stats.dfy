/** The statistics reducer `BenchResult::new`: sort a copy of the latency
    samples, pick the P50/P95/P99 elements at index `len * p / 100`, and divide
    the wall time by the request count truncated to 32 bits.  Durations are
    natural numbers of nanoseconds. */
module LatencyStats {

  predicate Sorted(s: seq<nat>) {
    forall i, j :: 0 <= i <= j < |s| ==> s[i] <= s[j]
  }

  // ---------------------------------------------------------------------------
  // Sorting the copy (`latencies.to_vec()` then `sort()`)
  // ---------------------------------------------------------------------------

  /** A head no larger than any element of a sorted tail keeps the sequence sorted. */
  lemma SortedCons(h: nat, t: seq<nat>)
    requires Sorted(t)
    requires forall y :: y in multiset(t) ==> h <= y
    ensures Sorted([h] + t)
  {
    forall k | 0 <= k < |t|
      ensures h <= t[k]
    {
      assert t[k] in multiset(t);
    }
  }

  /** Putting `x` in front of a sorted `s` whose head is not smaller. */
  lemma InsertFront(x: nat, s: seq<nat>)
    requires Sorted(s) && (s == [] || x <= s[0])
    ensures Sorted([x] + s)
  {
    forall y | y in multiset(s)
      ensures x <= y
    {
      assert y in s;
    }
    SortedCons(x, s);
  }

  /** Keeping the head of `s` in front of `x` inserted into its tail `t`. */
  lemma InsertBehind(x: nat, s: seq<nat>, t: seq<nat>)
    requires Sorted(s) && s != [] && s[0] < x
    requires Sorted(t) && multiset(t) == multiset(s[1..]) + multiset{x}
    ensures Sorted([s[0]] + t)
    ensures multiset([s[0]] + t) == multiset(s) + multiset{x}
  {
    assert s == [s[0]] + s[1..];
    forall y | y in multiset(t)
      ensures s[0] <= y
    {
      if y != x {
        assert y in s[1..];
      }
    }
    SortedCons(s[0], t);
  }

  function Insert(x: nat, s: seq<nat>): (r: seq<nat>)
    requires Sorted(s)
    ensures Sorted(r)
    ensures multiset(r) == multiset(s) + multiset{x}
    ensures |r| == |s| + 1
  {
    if s == [] || x <= s[0] then
      InsertFront(x, s);
      [x] + s
    else
      var t := Insert(x, s[1..]);
      InsertBehind(x, s, t);
      [s[0]] + t
  }

  /** An ascending permutation of `s`; by SortedPermutationUnique it is the one
      any correct sort returns, so it stands for the library's `sort`. */
  function Sort(s: seq<nat>): (r: seq<nat>)
    ensures Sorted(r)
    ensures multiset(r) == multiset(s)
    ensures |r| == |s|
  {
    if s == [] then
      []
    else
      assert s == [s[0]] + s[1..];
      Insert(s[0], Sort(s[1..]))
  }

  /** The head of a sorted sequence is its least element. */
  lemma SortedHeadLeast(s: seq<nat>, y: nat)
    requires Sorted(s) && y in multiset(s)
    ensures s != [] && s[0] <= y
  {
    assert y in s;
  }

  /** Dropping the head keeps a sequence sorted and removes one occurrence of the head. */
  lemma SortedTail(s: seq<nat>)
    requires Sorted(s) && s != []
    ensures Sorted(s[1..])
    ensures multiset(s[1..]) == multiset(s) - multiset{s[0]}
  {
    assert s == [s[0]] + s[1..];
  }

  /** Sequences that agree on their head and on their tail are equal. */
  lemma SameHeadSameTail(a: seq<nat>, b: seq<nat>)
    requires a != [] && b != [] && a[0] == b[0] && a[1..] == b[1..]
    ensures a == b
  {
    assert a == [a[0]] + a[1..];
    assert b == [b[0]] + b[1..];
  }

  lemma {:induction false} SortedPermutationUnique(a: seq<nat>, b: seq<nat>)
    requires Sorted(a) && Sorted(b)
    requires multiset(a) == multiset(b)
    ensures a == b
  {
    if a != [] {
      assert a[0] in multiset(b);
      SortedHeadLeast(b, a[0]);
      SortedHeadLeast(a, b[0]);
      SortedTail(a);
      SortedTail(b);
      SortedPermutationUnique(a[1..], b[1..]);
      SameHeadSameTail(a, b);
    } else {
      assert |b| == |multiset(b)| == |multiset(a)| == 0;
    }
  }

  // ---------------------------------------------------------------------------
  // Ranks: an order statistic stated without sorting
  // ---------------------------------------------------------------------------

  /** Number of samples strictly below `x`. */
  function CountBelow(s: seq<nat>, x: nat): (n: nat)
    ensures n <= |s|
  {
    if s == [] then 0 else (if s[0] < x then 1 else 0) + CountBelow(s[1..], x)
  }

  /** Number of samples at most `x`. */
  function CountAtMost(s: seq<nat>, x: nat): (n: nat)
    ensures n <= |s|
  {
    if s == [] then 0 else (if s[0] <= x then 1 else 0) + CountAtMost(s[1..], x)
  }

  /** `x` is the element of (0-based) rank `k` of `s`: at most `k` samples lie
      below it and more than `k` lie at or below it. */
  ghost predicate IsRank(s: seq<nat>, x: nat, k: nat) {
    CountBelow(s, x) <= k < CountAtMost(s, x)
  }

  lemma {:induction false} CountAtMostAppend(a: seq<nat>, b: seq<nat>, x: nat)
    ensures CountAtMost(a + b, x) == CountAtMost(a, x) + CountAtMost(b, x)
  {
    if a == [] {
      assert a + b == b;
    } else {
      assert (a + b)[1..] == a[1..] + b;
      CountAtMostAppend(a[1..], b, x);
    }
  }

  lemma {:induction false} CountsOfInsert(x: nat, s: seq<nat>, y: nat)
    requires Sorted(s)
    ensures CountBelow(Insert(x, s), y) == (if x < y then 1 else 0) + CountBelow(s, y)
    ensures CountAtMost(Insert(x, s), y) == (if x <= y then 1 else 0) + CountAtMost(s, y)
  {
    if s != [] && s[0] < x {
      CountsOfInsert(x, s[1..], y);
    }
  }

  /** Sorting keeps every count, so ranks in the sorted copy are ranks in the input. */
  lemma {:induction false} CountsOfSort(s: seq<nat>, y: nat)
    ensures CountBelow(Sort(s), y) == CountBelow(s, y)
    ensures CountAtMost(Sort(s), y) == CountAtMost(s, y)
  {
    if s != [] {
      CountsOfSort(s[1..], y);
      CountsOfInsert(s[0], Sort(s[1..]), y);
    }
  }

  lemma {:induction false} NoneBelow(s: seq<nat>, x: nat)
    requires forall k :: 0 <= k < |s| ==> x <= s[k]
    ensures CountBelow(s, x) == 0
  {
    if s != [] {
      NoneBelow(s[1..], x);
    }
  }

  lemma {:induction false} RankInSorted(s: seq<nat>, k: nat)
    requires Sorted(s) && k < |s|
    ensures IsRank(s, s[k], k)
  {
    if k == 0 {
      NoneBelow(s, s[0]);
    } else {
      RankInSorted(s[1..], k - 1);
    }
  }

  lemma {:induction false} CountAtMostBelow(s: seq<nat>, x: nat, y: nat)
    requires x < y
    ensures CountAtMost(s, x) <= CountBelow(s, y)
  {
    if s != [] {
      CountAtMostBelow(s[1..], x, y);
    }
  }

  /** At most one value has a given rank. */
  lemma RankUnique(s: seq<nat>, x: nat, y: nat, k: nat)
    requires IsRank(s, x, k) && IsRank(s, y, k)
    ensures x == y
  {
    if x < y {
      CountAtMostBelow(s, x, y);
    } else if y < x {
      CountAtMostBelow(s, y, x);
    }
  }

  // ---------------------------------------------------------------------------
  // Percentiles (`latencies_sorted[(latencies_sorted.len() * p) / 100]`)
  // ---------------------------------------------------------------------------

  /** `len * p / 100` in integer arithmetic: the largest `i` with `100 * i <= len * p`. */
  function PercentileIndex(len: nat, p: nat): (i: nat)
    requires 0 < len && p < 100
    ensures i < len
    ensures i * 100 <= len * p < (i + 1) * 100
  {
    assert len * p < len * 100;
    len * p / 100
  }

  lemma PercentileIndexMonotone(len: nat, p: nat, q: nat)
    requires 0 < len && p <= q < 100
    ensures PercentileIndex(len, p) <= PercentileIndex(len, q)
  {
    assert len * p <= len * q;
  }

  function Percentile(sorted: seq<nat>, p: nat): (x: nat)
    requires Sorted(sorted) && |sorted| > 0 && p < 100
    ensures IsRank(sorted, x, PercentileIndex(|sorted|, p))
  {
    RankInSorted(sorted, PercentileIndex(|sorted|, p));
    sorted[PercentileIndex(|sorted|, p)]
  }

  lemma PercentileMonotone(sorted: seq<nat>, p: nat, q: nat)
    requires Sorted(sorted) && |sorted| > 0 && p <= q < 100
    ensures Percentile(sorted, p) <= Percentile(sorted, q)
  {
    PercentileIndexMonotone(|sorted|, p, q);
  }

  // ---------------------------------------------------------------------------
  // Average latency (`total_time / total_requests as u32`)
  // ---------------------------------------------------------------------------

  const U32_LIMIT: nat := 0x1_0000_0000

  /** `n as u32`: keeps the low 32 bits of a `usize`. */
  function AsU32(n: nat): (r: nat)
    ensures r < U32_LIMIT
    ensures n < U32_LIMIT ==> r == n
    ensures (n - r) % U32_LIMIT == 0
  {
    n % U32_LIMIT
  }

  /** `Duration / u32`, which rounds the nanosecond count down. */
  function DivDuration(total: nat, divisor: nat): (q: nat)
    requires divisor > 0
    ensures q * divisor <= total < (q + 1) * divisor
  {
    total / divisor
  }

  // ---------------------------------------------------------------------------
  // The result record
  // ---------------------------------------------------------------------------

  /** `BenchResult` without `throughput`, which is a floating-point quotient. */
  datatype BenchResult = BenchResult(
    totalRequests: nat,
    totalTime: nat,
    avgLatency: nat,
    p50: nat,
    p95: nat,
    p99: nat,
    errors: nat)

  /** `BenchResult::new`.  The source panics when `total_requests as u32` is 0
      (division of a `Duration` by zero) and when the slice is empty (index 0
      out of bounds); both are preconditions here. */
  function NewBenchResult(totalRequests: nat, totalTime: nat, latencies: seq<nat>, errors: nat): (r: BenchResult)
    requires AsU32(totalRequests) != 0
    requires |latencies| > 0
    ensures r.totalRequests == totalRequests && r.totalTime == totalTime && r.errors == errors
    ensures r.avgLatency * AsU32(totalRequests) <= totalTime < (r.avgLatency + 1) * AsU32(totalRequests)
    ensures r.p50 in latencies && r.p95 in latencies && r.p99 in latencies
    ensures r.p50 <= r.p95 <= r.p99
  {
    var sorted := Sort(latencies);
    PercentileMonotone(sorted, 50, 95);
    PercentileMonotone(sorted, 95, 99);
    var r := BenchResult(
      totalRequests,
      totalTime,
      DivDuration(totalTime, AsU32(totalRequests)),
      Percentile(sorted, 50),
      Percentile(sorted, 95),
      Percentile(sorted, 99),
      errors);
    assert r.p50 in multiset(sorted) && r.p95 in multiset(sorted) && r.p99 in multiset(sorted);
    r
  }

  /** Each reported percentile is the element of rank `len * p / 100` of the
      input slice itself; with RankUnique this pins it down without reference
      to how the copy was sorted. */
  lemma BenchResultPercentilesAreRanks(totalRequests: nat, totalTime: nat, latencies: seq<nat>, errors: nat)
    requires AsU32(totalRequests) != 0
    requires |latencies| > 0
    ensures var r := NewBenchResult(totalRequests, totalTime, latencies, errors);
            && IsRank(latencies, r.p50, PercentileIndex(|latencies|, 50))
            && IsRank(latencies, r.p95, PercentileIndex(|latencies|, 95))
            && IsRank(latencies, r.p99, PercentileIndex(|latencies|, 99))
  {
    var r := NewBenchResult(totalRequests, totalTime, latencies, errors);
    CountsOfSort(latencies, r.p50);
    CountsOfSort(latencies, r.p95);
    CountsOfSort(latencies, r.p99);
  }
}
