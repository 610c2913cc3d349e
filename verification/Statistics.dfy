/** Latency statistics: a sliding window over the recorded samples, its average and its percentiles. */
module Statistics {
  import opened Bytes
  import Sorting

  const MAX_LATENCIES: nat := 100000
  const HALF: nat := MAX_LATENCIES / 2

  type Sample = n: nat | n < U32

  // ---------------------------------------------------------------- sorting and counting

  predicate AtMost(a: Sample, b: Sample) {
    a <= b
  }

  ghost predicate Ascending(s: seq<Sample>) {
    Sorting.Ascending(s, AtMost)
  }

  // Any sorting of numbers gives the same.
  function Sorted(s: seq<Sample>): seq<Sample> {
    Sorting.Arranged(s, AtMost)
  }

  function Place(x: Sample, s: seq<Sample>): seq<Sample> {
    Sorting.Place(x, s, AtMost)
  }

  lemma {:induction false} SortedIsSort(s: seq<Sample>)
    ensures Ascending(Sorted(s)) && multiset(Sorted(s)) == multiset(s) && |Sorted(s)| == |s|
    ensures forall y :: y in Sorted(s) <==> y in s
  {
    Sorting.ArrangedMembers(s, AtMost);
    if s != [] {
      SortedIsSort(s[1..]);
      Sorting.PlaceAscending(s[0], Sorted(s[1..]), AtMost);
    }
  }

  // How many samples are below the bound.
  function Below(s: seq<Sample>, bound: int): nat {
    if s == [] then 0 else (if s[0] < bound then 1 else 0) + Below(s[1..], bound)
  }

  lemma {:induction false} BelowJoin(a: seq<Sample>, b: seq<Sample>, bound: int)
    ensures Below(a + b, bound) == Below(a, bound) + Below(b, bound)
    decreases |a|
  {
    if a == [] {
      assert a + b == b;
    } else {
      assert (a + b)[1..] == a[1..] + b;
      BelowJoin(a[1..], b, bound);
    }
  }

  lemma {:induction false} BelowPlace(x: Sample, s: seq<Sample>, bound: int)
    ensures Below(Place(x, s), bound) == (if x < bound then 1 else 0) + Below(s, bound)
  {
    if s == [] || x <= s[0] {
      assert ([x] + s)[1..] == s;
    } else {
      BelowPlace(x, s[1..], bound);
      assert ([s[0]] + Place(x, s[1..]))[1..] == Place(x, s[1..]);
    }
  }

  lemma {:induction false} BelowSorted(s: seq<Sample>, bound: int)
    ensures Below(Sorted(s), bound) == Below(s, bound)
  {
    if s != [] {
      BelowSorted(s[1..], bound);
      BelowPlace(s[0], Sorted(s[1..]), bound);
    }
  }

  lemma {:induction false} BelowExtremes(s: seq<Sample>, bound: int)
    ensures Below(s, bound) <= |s|
    ensures (forall i | 0 <= i < |s| :: s[i] < bound) ==> Below(s, bound) == |s|
    ensures (forall i | 0 <= i < |s| :: s[i] >= bound) ==> Below(s, bound) == 0
  {
    if s != [] { BelowExtremes(s[1..], bound); }
  }

  // The value of rank k: one of the samples, with at most k samples below it and more than k not above it.
  ghost predicate HasRank(s: seq<Sample>, k: nat, p: int) {
    p in s && Below(s, p) <= k < Below(s, p + 1)
  }

  lemma BelowSplit(s: seq<Sample>, k: nat, bound: int)
    requires k <= |s|
    ensures Below(s, bound) == Below(s[..k], bound) + Below(s[k..], bound)
  {
    assert s == s[..k] + s[k..];
    BelowJoin(s[..k], s[k..], bound);
  }

  lemma UpToRank(r: seq<Sample>, k: nat)
    requires Ascending(r) && k < |r|
    ensures Below(r[..k + 1], r[k] as int + 1) == k + 1
  {
    BelowExtremes(r[..k + 1], r[k] as int + 1);
  }

  lemma FromRank(r: seq<Sample>, k: nat)
    requires Ascending(r) && k < |r|
    ensures Below(r[k..], r[k]) == 0
  {
    BelowExtremes(r[k..], r[k]);
  }

  lemma RankInAscending(r: seq<Sample>, k: nat)
    requires Ascending(r) && k < |r|
    ensures var p: int := r[k]; Below(r, p) <= k < Below(r, p + 1)
  {
    hide Below, Ascending;
    var p: int := r[k];
    BelowSplit(r, k, p);
    BelowExtremes(r[..k], p);
    FromRank(r, k);
    BelowSplit(r, k + 1, p + 1);
    UpToRank(r, k);
  }

  lemma SortedHasRank(s: seq<Sample>, k: nat)
    requires k < |s|
    ensures |Sorted(s)| == |s| && HasRank(s, k, Sorted(s)[k])
  {
    hide Below, Sorted;
    SortedIsSort(s);
    var p: int := Sorted(s)[k];
    assert Sorted(s)[k] in Sorted(s);
    RankInAscending(Sorted(s), k);
    BelowSorted(s, p);
    BelowSorted(s, p + 1);
  }

  function Rank(n: nat, percent: nat): (k: nat)
    requires n > 0
    ensures percent <= 100 ==> k < n
  {
    RankInside(n, percent);
    (n - 1) * percent / 100
  }

  lemma RankInside(n: nat, percent: nat)
    requires n > 0
    ensures percent <= 100 ==> (n - 1) * percent / 100 < n
  {
    if percent <= 100 { assert (n - 1) * percent <= (n - 1) * 100; }
  }

  // The position of a percentile: the last one with at most that share of the other samples in front of it.
  lemma RankIs(n: nat, percent: nat)
    requires n > 0
    ensures 100 * Rank(n, percent) <= (n - 1) * percent < 100 * (Rank(n, percent) + 1)
  {
    var x := (n - 1) * percent;
    assert x == x / 100 * 100 + x % 100;
  }

  lemma Percentiles(s: seq<Sample>)
    requires s != []
    ensures var (r, n) := (Sorted(s), |s|);
            |r| == n && r[Rank(n, 50)] <= r[Rank(n, 95)] <= r[Rank(n, 99)] &&
            HasRank(s, Rank(n, 50), r[Rank(n, 50)]) && HasRank(s, Rank(n, 95), r[Rank(n, 95)]) &&
            HasRank(s, Rank(n, 99), r[Rank(n, 99)])
  {
    hide Rank, HasRank, Sorted, Ascending;
    SortedIsSort(s);
    RanksOrdered(|s|);
    AscendingAt(Sorted(s), Rank(|s|, 50), Rank(|s|, 95));
    AscendingAt(Sorted(s), Rank(|s|, 95), Rank(|s|, 99));
    SortedHasRank(s, Rank(|s|, 50));
    SortedHasRank(s, Rank(|s|, 95));
    SortedHasRank(s, Rank(|s|, 99));
  }

  lemma AscendingAt(r: seq<Sample>, i: nat, j: nat)
    requires Ascending(r) && i <= j < |r|
    ensures r[i] <= r[j]
  {
  }

  lemma RanksOrdered(n: nat)
    requires n > 0
    ensures Rank(n, 50) <= Rank(n, 95) <= Rank(n, 99)
  {
  }

  // A rank belongs to one value only, and higher ranks to values that are not lower.
  lemma RankMonotone(s: seq<Sample>, j: nat, k: nat, p: int, q: int)
    requires j <= k && HasRank(s, j, p) && HasRank(s, k, q)
    ensures p <= q && (j == k ==> p == q)
  {
    if q < p { BelowGrows(s, q + 1, p); }
    if p < q { BelowGrows(s, p + 1, q); }
  }

  lemma {:induction false} BelowGrows(s: seq<Sample>, a: int, b: int)
    requires a <= b
    ensures Below(s, a) <= Below(s, b)
  {
    if s != [] { BelowGrows(s[1..], a, b); }
  }

  function Sum(s: seq<Sample>): nat {
    if s == [] then 0 else Sum(s[..|s| - 1]) + s[|s| - 1]
  }

  lemma {:induction false} SumBetween(s: seq<Sample>, lo: nat, hi: nat)
    requires forall i | 0 <= i < |s| :: lo <= s[i] <= hi
    ensures lo * |s| <= Sum(s) <= hi * |s|
  {
    if s != [] {
      var n := |s| - 1;
      SumBetween(s[..n], lo, hi);
      OneMoreBetween(Sum(s[..n]), n, s[n], lo, hi);
    }
  }

  lemma OneMoreBetween(sum: nat, n: nat, x: nat, lo: nat, hi: nat)
    requires lo * n <= sum <= hi * n && lo <= x <= hi
    ensures lo * (n + 1) <= sum + x <= hi * (n + 1)
  {
    assert lo * (n + 1) == lo * n + lo && hi * (n + 1) == hi * n + hi;
  }

  lemma MoreTimes(a: nat, b: nat, n: nat)
    requires a < b
    ensures a * n + n <= b * n
  {
    assert b * n == (a + 1) * n + (b - a - 1) * n;
  }

  lemma DivideBetween(sum: nat, n: nat, lo: nat, hi: nat)
    requires n > 0 && lo * n <= sum <= hi * n
    ensures lo <= sum / n <= hi
  {
    var q := sum / n;
    assert sum == q * n + sum % n;
    if q < lo { MoreTimes(q, lo, n); }
    if hi < q { MoreTimes(hi, q, n); }
  }

  // ---------------------------------------------------------------- the window

  // How many of the n samples since the last reset are kept.
  function WindowSize(n: nat): (w: nat)
    ensures w <= MAX_LATENCIES && w <= n
    ensures n > MAX_LATENCIES ==> w > HALF
  {
    if n <= MAX_LATENCIES then n else HALF + 1 + (n - MAX_LATENCIES - 1) % HALF
  }

  class LatencyStatistics {
    var latencies: seq<Sample>
    var average: nat
    var p50: nat
    var p95: nat
    var p99: nat
    ghost var samples: seq<Sample>  // all since the last reset

    ghost predicate Valid()
      reads this
    {
      |latencies| == WindowSize(|samples|) && latencies == samples[|samples| - |latencies|..]
    }

    constructor ()
      ensures Valid() && samples == [] && average == p50 == p95 == p99 == 0
    {
      latencies, samples := [], [];
      average, p50, p95, p99 := 0, 0, 0, 0;
    }

    // A full window is cut to its newer half first.
    method RecordLatency(latency: Sample)
      requires Valid()
      modifies this`latencies, this`samples
      ensures Valid() && samples == old(samples) + [latency]
    {
      if |latencies| >= MAX_LATENCIES {
        latencies := latencies[HALF..];
      }
      latencies := latencies + [latency];
      samples := samples + [latency];
      NextWindow(|old(samples)|);
      assert latencies == samples[|samples| - |latencies|..];
    }

    method Reset()
      modifies this
      ensures Valid() && samples == [] && average == p50 == p95 == p99 == 0
    {
      latencies, samples := [], [];
      average, p50, p95, p99 := 0, 0, 0, 0;
    }

    // The sum never leaves 64 bits, so the average is exact.
    method CalculatePercentiles()
      requires Valid()
      modifies this`average, this`p50, this`p95, this`p99
      ensures latencies == [] ==> average == p50 == p95 == p99 == 0
      ensures latencies != [] ==> IsAverage(latencies, average) && ArePercentiles(latencies, p50, p95, p99)
    {
      if latencies == [] {
        average, p50, p95, p99 := 0, 0, 0, 0;
        return;
      }
      WindowBounded(|samples|);
      assert |latencies| <= MAX_LATENCIES;
      hide *;
      var sorted := Sorted(latencies);
      PercentilesAre(latencies);
      average := Average(latencies, sorted);
      var n := |sorted|;
      p50, p95, p99 := sorted[Rank(n, 50)], sorted[Rank(n, 95)], sorted[Rank(n, 99)];
    }
  }

  // The quotient of the exact sum, which lies between two of the samples.
  ghost predicate IsAverage(s: seq<Sample>, a: nat)
    requires s != []
  {
    a == Sum(s) / |s| && Sum(s) < U64 && (exists x | x in s :: x <= a) && (exists x | x in s :: a <= x)
  }

  ghost predicate ArePercentiles(s: seq<Sample>, p50: nat, p95: nat, p99: nat)
    requires s != []
  {
    HasRank(s, Rank(|s|, 50), p50) && HasRank(s, Rank(|s|, 95), p95) && HasRank(s, Rank(|s|, 99), p99) &&
    p50 <= p95 <= p99 < U32
  }

  // Any arrangement of the samples has their sum.
  method Average(ghost s: seq<Sample>, sorted: seq<Sample>) returns (average: nat)
    requires 0 < |s| <= MAX_LATENCIES && sorted == Sorted(s)
    ensures IsAverage(s, average)
  {
    hide *;
    PercentilesAre(s);
    SumSorted(s);
    AverageIs(s);
    var sum := Accumulate(sorted);
    average := sum / |sorted| % U32;
  }

  lemma AverageIs(s: seq<Sample>)
    requires 0 < |s| <= MAX_LATENCIES
    ensures IsAverage(s, Sum(s) / |s| % U32)
  {
    var lo, hi := AverageBetween(s);
    SumFits(s);
    SampleFits(hi, Sum(s) / |s|);
    hide Sum;
  }

  lemma PercentilesAre(s: seq<Sample>)
    requires s != []
    ensures var (r, n) := (Sorted(s), |s|);
            |r| == n && ArePercentiles(s, r[Rank(n, 50)], r[Rank(n, 95)], r[Rank(n, 99)])
  {
    Percentiles(s);
    var x := Sorted(s)[Rank(|s|, 99)];
    hide Rank, HasRank, Sorted;
    assert x < U32;
  }

  lemma WindowBounded(n: nat)
    ensures WindowSize(n) <= MAX_LATENCIES
  {
  }

  lemma SampleFits(x: Sample, n: nat)
    requires n <= x
    ensures n % U32 == n < U32
  {
  }

  // std::accumulate on 64 bits
  method Accumulate(s: seq<Sample>) returns (sum: nat)
    requires |s| <= MAX_LATENCIES
    ensures sum == Sum(s) < U64
  {
    sum := 0;
    for i := 0 to |s|
      invariant sum == Sum(s[..i])
    {
      assert s[..i + 1][..i] == s[..i];
      SumFits(s[..i + 1]);
      sum := (sum + s[i]) % U64;
    }
    assert s[..|s|] == s;
    SumFits(s);
  }

  lemma AverageBetween(s: seq<Sample>) returns (lo: Sample, hi: Sample)
    requires s != []
    ensures lo in s && hi in s && lo <= Sum(s) / |s| <= hi
  {
    lo, hi := s[0], s[0];
    for i := 1 to |s|
      invariant lo in s && hi in s && forall j | 0 <= j < i :: lo <= s[j] <= hi
    {
      if s[i] < lo { lo := s[i]; }
      if s[i] > hi { hi := s[i]; }
    }
    SumBetween(s, lo, hi);
    DivideBetween(Sum(s), |s|, lo, hi);
  }

  lemma NextWindow(n: nat)
    ensures WindowSize(n + 1) ==
            if WindowSize(n) >= MAX_LATENCIES then HALF + 1 else WindowSize(n) + 1
  {
    assert HALF == 50000;
    if n > MAX_LATENCIES { NextModulo(n - MAX_LATENCIES - 1); }
  }

  lemma NextModulo(m: nat)
    ensures (m + 1) % 50000 == if m % 50000 == 49999 then 0 else m % 50000 + 1
  {
  }

  lemma SumFits(s: seq<Sample>)
    requires |s| <= MAX_LATENCIES
    ensures Sum(s) < U64
  {
    SumBetween(s, 0, U32 - 1);
  }

  lemma {:induction false} SumCons(x: Sample, s: seq<Sample>)
    ensures Sum([x] + s) == x + Sum(s)
  {
    if s != [] {
      var t := [x] + s;
      assert t[..|t| - 1] == [x] + s[..|s| - 1];
      SumCons(x, s[..|s| - 1]);
    }
  }

  lemma {:induction false} SumPlace(x: Sample, s: seq<Sample>)
    ensures Sum(Place(x, s)) == x + Sum(s)
  {
    if s == [] || x <= s[0] {
      SumCons(x, s);
    } else {
      SumPlace(x, s[1..]);
      SumCons(s[0], Place(x, s[1..]));
      SumCons(s[0], s[1..]);
      assert s == [s[0]] + s[1..];
    }
  }

  lemma {:induction false} SumSorted(s: seq<Sample>)
    ensures Sum(Sorted(s)) == Sum(s)
  {
    if s != [] {
      SumSorted(s[1..]);
      SumPlace(s[0], Sorted(s[1..]));
      SumCons(s[0], s[1..]);
      assert s == [s[0]] + s[1..];
    }
  }
}
