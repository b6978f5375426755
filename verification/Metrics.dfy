/** Latency statistics of a benchmark, with reals in place of floating-point numbers. */
module Metrics {
  import opened Sums

  // ---------------------------------------------------------------------------------------------
  // Sorting
  // ---------------------------------------------------------------------------------------------

  ghost predicate Sorted(s: seq<nat>) {
    forall i, j :: 0 <= i < j < |s| ==> s[i] <= s[j]
  }

  function Insert(x: nat, s: seq<nat>): seq<nat> {
    if s == [] || x <= s[0] then [x] + s else [s[0]] + Insert(x, s[1..])
  }

  function Sort(s: seq<nat>): seq<nat> {
    if s == [] then [] else Insert(s[0], Sort(s[1..]))
  }

  lemma {:induction false} InsertContents(x: nat, s: seq<nat>)
    ensures multiset(Insert(x, s)) == multiset(s) + multiset{x}
  {
    if s != [] && x > s[0] {
      InsertContents(x, s[1..]);
      assert s == [s[0]] + s[1..];
    }
  }

  lemma SortedCons(x: nat, s: seq<nat>)
    requires Sorted(s) && forall y :: y in s ==> x <= y
    ensures Sorted([x] + s)
  {
    var t := [x] + s;
    forall i, j | 0 <= i < j < |t| ensures t[i] <= t[j] {
      assert t[0] == x && t[j] == s[j - 1] && s[j - 1] in s;
      assert i > 0 ==> t[i] == s[i - 1];
    }
  }

  lemma {:induction false} InsertSorts(x: nat, s: seq<nat>)
    requires Sorted(s)
    ensures Sorted(Insert(x, s))
  {
    if s == [] || x <= s[0] {
      SortedCons(x, s);
    } else {
      InsertSorts(x, s[1..]);
      var rest := Insert(x, s[1..]);
      InsertContents(x, s[1..]);
      forall y | y in rest ensures s[0] <= y {
        assert y in multiset(rest);
        assert y == x || y in s[1..];
      }
      SortedCons(s[0], rest);
    }
  }

  lemma {:induction false} SortSorts(s: seq<nat>)
    ensures Sorted(Sort(s)) && multiset(Sort(s)) == multiset(s)
  {
    if s != [] {
      SortSorts(s[1..]);
      InsertSorts(s[0], Sort(s[1..]));
      InsertContents(s[0], Sort(s[1..]));
      assert s == [s[0]] + s[1..];
    }
  }

  lemma TailsMatch(a: seq<nat>, b: seq<nat>)
    requires a != [] && b != [] && a[0] == b[0] && multiset(a) == multiset(b)
    ensures multiset(a[1..]) == multiset(b[1..])
  {
    assert a == [a[0]] + a[1..] && b == [b[0]] + b[1..];
    assert multiset(a[1..]) == multiset(a) - multiset{a[0]};
    assert multiset(b[1..]) == multiset(b) - multiset{b[0]};
  }

  lemma HeadIsLeast(a: seq<nat>, y: nat)
    requires Sorted(a) && y in multiset(a)
    ensures a != [] && a[0] <= y
  {
    assert y in a;
  }

  lemma SameHead(a: seq<nat>, b: seq<nat>)
    requires Sorted(a) && Sorted(b) && multiset(a) == multiset(b) && a != []
    ensures b != [] && a[0] == b[0]
  {
    assert a[0] in multiset(a);
    HeadIsLeast(b, a[0]);
    assert b[0] in multiset(b);
    HeadIsLeast(a, b[0]);
  }

  /** There is one sorted arrangement of a collection of numbers. */
  lemma {:induction false} SortedIsUnique(a: seq<nat>, b: seq<nat>)
    requires Sorted(a) && Sorted(b) && multiset(a) == multiset(b)
    ensures a == b
    decreases |a|
  {
    if a != [] {
      SameHead(a, b);
      TailsMatch(a, b);
      SortedIsUnique(a[1..], b[1..]);
      assert a == [a[0]] + a[1..] && b == [b[0]] + b[1..];
    } else if b != [] {
      SameHead(b, a);
    }
  }

  // ---------------------------------------------------------------------------------------------
  // Percentiles
  // ---------------------------------------------------------------------------------------------

  /** The value at a fractional position, on the line between its two neighbours. */
  function Interpolate(s: seq<nat>, x: real): real
    requires s != [] && 0.0 <= x <= (|s| - 1) as real
  {
    var lower := x.Floor;
    var upper := if lower as real == x then lower else lower + 1;
    var frac := x - lower as real;
    s[lower] as real * (1.0 - frac) + s[upper] as real * frac
  }

  function Position(n: nat, pct: real): (x: real)
    requires n >= 1 && 0.0 <= pct <= 100.0
    ensures 0.0 <= x <= (n - 1) as real
  {
    assert (pct / 100.0) * (n - 1) as real <= 1.0 * (n - 1) as real;
    (pct / 100.0) * (n - 1) as real
  }

  function Percentile(s: seq<nat>, pct: real): real
    requires 0.0 <= pct <= 100.0
  {
    if s == [] then 0.0
    else if |s| == 1 then s[0] as real
    else Interpolate(s, Position(|s|, pct))
  }

  lemma Between(a: real, b: real, f: real)
    requires a <= b && 0.0 <= f <= 1.0
    ensures a <= a * (1.0 - f) + b * f <= b
  {
    var v := a * (1.0 - f) + b * f;
    assert v == a + (b - a) * f && v == b - (b - a) * (1.0 - f);
    ProductNonNegative(b - a, f);
    ProductNonNegative(b - a, 1.0 - f);
  }

  lemma ProductNonNegative(x: real, y: real)
    requires x >= 0.0 && y >= 0.0
    ensures x * y >= 0.0
  {
  }

  lemma LineRises(a: real, b: real, f: real, g: real)
    requires a <= b && f <= g
    ensures a * (1.0 - f) + b * f <= a * (1.0 - g) + b * g
  {
    assert a * (1.0 - f) + b * f == a + (b - a) * f;
    assert a * (1.0 - g) + b * g == a + (b - a) * g;
    assert (b - a) * g - (b - a) * f == (b - a) * (g - f);
    ProductNonNegative(b - a, g - f);
  }

  lemma InterpolateBounds(s: seq<nat>, x: real)
    requires s != [] && Sorted(s) && 0.0 <= x <= (|s| - 1) as real
    ensures var lower := x.Floor;
            && 0 <= lower < |s| && s[lower] as real <= Interpolate(s, x)
            && (lower + 1 < |s| ==> Interpolate(s, x) <= s[lower + 1] as real)
            && (lower + 1 == |s| ==> Interpolate(s, x) == s[lower] as real)
  {
    var lower := x.Floor;
    var frac := x - lower as real;
    if lower as real != x {
      Between(s[lower] as real, s[lower + 1] as real, frac);
    }
  }

  /** Further along a sorted list means no smaller a value. */
  lemma InterpolateRises(s: seq<nat>, x: real, y: real)
    requires s != [] && Sorted(s) && 0.0 <= x <= y <= (|s| - 1) as real
    ensures Interpolate(s, x) <= Interpolate(s, y)
  {
    InterpolateBounds(s, x);
    InterpolateBounds(s, y);
    var i, j := x.Floor, y.Floor;
    assert i <= j;
    if i == j && i + 1 < |s| {
      var a, b := s[i] as real, s[i + 1] as real;
      var f, g := x - i as real, y - i as real;
      assert Interpolate(s, x) == a * (1.0 - f) + b * f;
      assert Interpolate(s, y) == a * (1.0 - g) + b * g;
      LineRises(a, b, f, g);
    } else if i < j {
      assert s[i + 1] <= s[j];
    }
  }

  lemma PositionRises(n: nat, p: real, q: real)
    requires n >= 1 && 0.0 <= p <= q <= 100.0
    ensures Position(n, p) <= Position(n, q)
  {
    var m := (n - 1) as real;
    assert (q / 100.0) * m - (p / 100.0) * m == ((q - p) / 100.0) * m;
    assert ((q - p) / 100.0) * m >= 0.0;
  }

  lemma PercentileRises(s: seq<nat>, p: real, q: real)
    requires Sorted(s) && s != [] && 0.0 <= p <= q <= 100.0
    ensures s[0] as real <= Percentile(s, p) <= Percentile(s, q) <= s[|s| - 1] as real
  {
    if |s| > 1 {
      var n := (|s| - 1) as real;
      PositionRises(|s|, p, q);
      var x, y := Position(|s|, p), Position(|s|, q);
      InterpolateRises(s, 0.0, x);
      InterpolateRises(s, x, y);
      InterpolateRises(s, y, n);
      InterpolateBounds(s, n);
      assert Interpolate(s, 0.0) == s[0] as real;
    }
  }

  // ---------------------------------------------------------------------------------------------
  // What a percentile is
  // ---------------------------------------------------------------------------------------------

  /** The rank that a percentage asks for among `n` measurements, counted from zero. */
  function Rank(n: nat, pct: real): real
    requires n >= 1
  {
    pct * (n - 1) as real / 100.0
  }

  lemma PositionIsRank(n: nat, pct: real)
    requires n >= 1 && 0.0 <= pct <= 100.0
    ensures Position(n, pct) == Rank(n, pct)
  {
  }

  lemma InterpolateExact(s: seq<nat>, x: real, k: nat)
    requires k + 1 < |s| && k as real <= x <= (k + 1) as real
    ensures Interpolate(s, x) == s[k] as real + (x - k as real) * (s[k + 1] as real - s[k] as real)
  {
    if x == (k + 1) as real {
      assert x.Floor == k + 1;
    } else {
      assert x.Floor == k;
      var a, b, f := s[k] as real, s[k + 1] as real, x - k as real;
      assert x != k as real ==> Interpolate(s, x) == a * (1.0 - f) + b * f;
      assert a * (1.0 - f) + b * f == a + f * (b - a);
    }
  }

  /** Between two neighbouring ranks the percentile is on the line between the two measurements. */
  lemma PercentileExact(s: seq<nat>, pct: real, k: nat)
    requires 0.0 <= pct <= 100.0 && k + 1 < |s| && k as real <= Rank(|s|, pct) <= (k + 1) as real
    ensures Percentile(s, pct) == s[k] as real + (Rank(|s|, pct) - k as real) * (s[k + 1] as real - s[k] as real)
  {
    PositionIsRank(|s|, pct);
    InterpolateExact(s, Position(|s|, pct), k);
  }

  lemma PercentileOfEnds(s: seq<nat>)
    requires s != []
    ensures Percentile(s, 0.0) == s[0] as real && Percentile(s, 100.0) == s[|s| - 1] as real
  {
    if |s| > 1 {
      PercentileExact(s, 0.0, 0);
      PercentileExact(s, 100.0, |s| - 2);
    }
  }

  /** The middle measurement of an odd number, the mean of the two in the middle of an even number. */
  lemma MedianIsMiddle(s: seq<nat>, m: nat)
    requires m < |s| && (|s| == 2 * m + 1 || (|s| == 2 * m && m >= 1))
    ensures Percentile(s, 50.0) ==
            if |s| == 2 * m + 1 then s[m] as real else (s[m - 1] as real + s[m] as real) / 2.0
  {
    if |s| == 2 * m {
      assert Rank(|s|, 50.0) == (m - 1) as real + 0.5;
      PercentileExact(s, 50.0, m - 1);
    } else if m > 0 {
      assert Rank(|s|, 50.0) == m as real;
      PercentileExact(s, 50.0, m - 1);
    }
  }

  /** On the line between the two of the measurements `s` that are next to the rank of `pct`. */
  ghost predicate IsPercentile(s: seq<nat>, pct: real, value: real)
    requires s != []
  {
    if |s| == 1 then value == s[0] as real
    else forall k: nat :: IsNextTo(|s|, pct, k) ==> value == OnLine(s, pct, k)
  }

  predicate IsNextTo(n: nat, pct: real, k: nat) {
    k + 1 < n && k as real <= Rank(n, pct) <= (k + 1) as real
  }

  function OnLine(s: seq<nat>, pct: real, k: nat): real
    requires k + 1 < |s|
  {
    s[k] as real + (Rank(|s|, pct) - k as real) * (s[k + 1] as real - s[k] as real)
  }

  lemma SomeRankIsNext(n: nat, pct: real) returns (k: nat)
    requires n > 1 && 0.0 <= pct <= 100.0
    ensures IsNextTo(n, pct, k)
  {
    PositionIsRank(n, pct);
    var x := Position(n, pct);
    k := if x.Floor == n - 1 then n - 2 else x.Floor;
  }

  /** That describes the percentile, and nothing else. */
  lemma PercentileIsDetermined(s: seq<nat>, pct: real, value: real)
    requires s != [] && 0.0 <= pct <= 100.0
    ensures IsPercentile(s, pct, value) <==> value == Percentile(s, pct)
  {
    if |s| > 1 {
      forall k: nat | IsNextTo(|s|, pct, k) ensures OnLine(s, pct, k) == Percentile(s, pct) {
        PercentileExact(s, pct, k);
      }
      var k := SomeRankIsNext(|s|, pct);
    }
  }

  // ---------------------------------------------------------------------------------------------
  // What the other numbers are
  // ---------------------------------------------------------------------------------------------

  predicate IsMean(s: seq<nat>, mean: real) {
    if s == [] then mean == 0.0 else mean * |s| as real == Sum(s) as real
  }

  function SumOfSquares(s: seq<nat>): real {
    if s == [] then 0.0 else s[0] as real * s[0] as real + SumOfSquares(s[1..])
  }

  /** The sample variance: the squares less the square of the mean, over one less than the count. */
  predicate IsVariance(s: seq<nat>, mean: real, variance: real) {
    if |s| <= 1 then variance == 0.0
    else variance * (|s| as real - 1.0) == SumOfSquares(s) - |s| as real * (mean * mean)
  }

  /** Measurements per second, where the measurements are in microseconds. */
  predicate IsRate(s: seq<nat>, rate: real) {
    if Sum(s) == 0 then rate == 0.0 else rate * Sum(s) as real == |s| as real * 1000000.0
  }

  function SquaredDeviations(s: seq<nat>, mean: real): real {
    if s == [] then 0.0
    else (s[0] as real - mean) * (s[0] as real - mean) + SquaredDeviations(s[1..], mean)
  }

  /** A sum of squared deviations from `m`, written with the sum of squares, the sum and the count. */
  predicate Expands(deviations: real, m: real, squares: real, sum: real, n: real) {
    deviations == squares - 2.0 * m * sum + n * (m * m)
  }

  lemma {:induction false} DeviationsExact(s: seq<nat>, m: real)
    ensures Expands(SquaredDeviations(s, m), m, SumOfSquares(s), Sum(s) as real, |s| as real)
  {
    if s != [] {
      DeviationsExact(s[1..], m);
      var v, d := s[0] as real, SquaredDeviations(s[1..], m);
      OneMoreDeviation(v, m, d, SumOfSquares(s[1..]), Sum(s[1..]) as real, |s[1..]| as real);
      assert SquaredDeviations(s, m) == (v - m) * (v - m) + d;
      assert SumOfSquares(s) == v * v + SumOfSquares(s[1..]);
      assert Sum(s) as real == v + Sum(s[1..]) as real && |s| as real == |s[1..]| as real + 1.0;
    }
  }

  lemma OneMoreDeviation(v: real, m: real, deviations: real, squares: real, sum: real, n: real)
    requires Expands(deviations, m, squares, sum, n)
    ensures Expands((v - m) * (v - m) + deviations, m, v * v + squares, v + sum, n + 1.0)
  {
    assert (v - m) * (v - m) == v * v - 2.0 * m * v + m * m;
    assert 2.0 * m * (v + sum) == 2.0 * m * v + 2.0 * m * sum;
    assert (n + 1.0) * (m * m) == n * (m * m) + m * m;
  }

  lemma {:induction false} DeviationsNonNegative(s: seq<nat>, mean: real)
    ensures SquaredDeviations(s, mean) >= 0.0
  {
    if s != [] {
      DeviationsNonNegative(s[1..], mean);
      var d := s[0] as real - mean;
      assert d * d >= 0.0;
    }
  }

  lemma QuotientTimes(x: real, y: real)
    requires y != 0.0
    ensures x / y * y == x
  {
  }

  lemma VarianceAlgebra(deviations: real, squares: real, sum: real, n: real, mean: real)
    requires mean * n == sum && deviations == squares - 2.0 * mean * sum + n * (mean * mean)
    ensures deviations == squares - n * (mean * mean)
  {
    assert 2.0 * mean * (mean * n) == 2.0 * (n * (mean * mean));
  }

  /** The variance is the mean squared deviation from the mean, so it is not negative. */
  lemma VarianceOfDeviations(s: seq<nat>, mean: real)
    requires |s| > 1 && IsMean(s, mean)
    ensures SquaredDeviations(s, mean) == SumOfSquares(s) - |s| as real * (mean * mean)
  {
    DeviationsExact(s, mean);
    VarianceAlgebra(SquaredDeviations(s, mean), SumOfSquares(s), Sum(s) as real, |s| as real, mean);
  }

  lemma FactorNonNegative(x: real, y: real)
    requires y > 0.0 && x * y >= 0.0
    ensures x >= 0.0
  {
    assert x >= 0.0 || x * y < 0.0 by {
      if x < 0.0 {
        NegativeProduct(x, y);
      }
    }
  }

  lemma NegativeProduct(x: real, y: real)
    requires x < 0.0 && y > 0.0
    ensures x * y < 0.0
  {
  }

  lemma VarianceNonNegative(s: seq<nat>, mean: real, variance: real)
    requires IsMean(s, mean) && IsVariance(s, mean, variance)
    ensures variance >= 0.0
  {
    if |s| > 1 {
      VarianceOfDeviations(s, mean);
      DeviationsNonNegative(s, mean);
      FactorNonNegative(variance, |s| as real - 1.0);
    }
  }

  lemma OneMore(x: nat, n: nat)
    ensures x * (n + 1) == x * n + x
  {
  }

  lemma {:induction false} SumBounds(s: seq<nat>, lo: nat, hi: nat)
    requires forall k :: 0 <= k < |s| ==> lo <= s[k] <= hi
    ensures lo * |s| <= Sum(s) <= hi * |s|
  {
    if s != [] {
      SumBounds(s[1..], lo, hi);
      OneMore(lo, |s[1..]|);
      OneMore(hi, |s[1..]|);
    }
  }

  lemma FactorBounds(mean: real, n: nat, total: nat, lo: nat, hi: nat)
    requires n > 0 && mean * n as real == total as real && lo * n <= total <= hi * n
    ensures lo as real <= mean <= hi as real
  {
    var c := n as real;
    assert (lo * n) as real == lo as real * c && (hi * n) as real == hi as real * c;
    assert (mean - lo as real) * c == mean * c - lo as real * c;
    assert (hi as real - mean) * c == hi as real * c - mean * c;
    FactorNonNegative(mean - lo as real, c);
    FactorNonNegative(hi as real - mean, c);
  }

  lemma MeanIsBetween(s: seq<nat>, mean: real)
    requires Sorted(s) && s != [] && IsMean(s, mean)
    ensures s[0] as real <= mean <= s[|s| - 1] as real
  {
    assert forall k :: 0 <= k < |s| ==> s[0] <= s[k] <= s[|s| - 1];
    SumBounds(s, s[0], s[|s| - 1]);
    FactorBounds(mean, |s|, Sum(s), s[0], s[|s| - 1]);
  }

  // ---------------------------------------------------------------------------------------------
  // The summary
  // ---------------------------------------------------------------------------------------------

  /** `variance` is the square of the reported standard deviation. */
  datatype Summary = Summary(total: nat, mean: real, median: real, p95: real, p99: real, min: real, max: real,
                             variance: real, opsPerSec: real)

  /** What the summary of sorted measurements must say; all numbers are zero without measurements. */
  ghost predicate IsSummary(s: seq<nat>, r: Summary) {
    && r.total == Sum(s) && IsMean(s, r.mean) && IsVariance(s, r.mean, r.variance) && IsRate(s, r.opsPerSec)
    && if s == [] then r.min == r.median == r.p95 == r.p99 == r.max == 0.0
       else
         && r.min == s[0] as real && r.max == s[|s| - 1] as real
         && IsPercentile(s, 50.0, r.median) && IsPercentile(s, 95.0, r.p95) && IsPercentile(s, 99.0, r.p99)
  }

  method MeanOf(s: seq<nat>) returns (mean: real)
    ensures IsMean(s, mean)
  {
    if s == [] {
      return 0.0;
    }
    QuotientTimes(Sum(s) as real, |s| as real);
    mean := Sum(s) as real / |s| as real;
  }

  method VarianceOf(s: seq<nat>, mean: real) returns (variance: real)
    requires IsMean(s, mean)
    ensures IsVariance(s, mean, variance)
  {
    if |s| <= 1 {
      return 0.0;
    }
    VarianceOfDeviations(s, mean);
    QuotientTimes(SquaredDeviations(s, mean), |s| as real - 1.0);
    variance := SquaredDeviations(s, mean) / (|s| as real - 1.0);
  }

  method RateOf(s: seq<nat>) returns (rate: real)
    ensures IsRate(s, rate)
  {
    if Sum(s) == 0 {
      return 0.0;
    }
    RateAlgebra(|s| as real, Sum(s) as real);
    rate := |s| as real / (Sum(s) as real / 1000000.0);
  }

  lemma RateAlgebra(n: real, total: real)
    requires total > 0.0
    ensures n / (total / 1000000.0) * total == n * 1000000.0
  {
    var seconds := total / 1000000.0;
    assert seconds * 1000000.0 == total && seconds > 0.0;
    QuotientTimes(n, seconds);
    assert n / seconds * (seconds * 1000000.0) == n / seconds * seconds * 1000000.0;
  }

  method PercentileOf(s: seq<nat>, pct: real) returns (value: real)
    requires 0.0 <= pct <= 100.0
    ensures if s == [] then value == 0.0 else IsPercentile(s, pct, value)
  {
    value := Percentile(s, pct);
    if s != [] {
      PercentileIsDetermined(s, pct, value);
    }
  }

  /** The summary of any measurements is that of the same measurements in order. */
  method FromDurations(durations: seq<nat>) returns (r: Summary)
    ensures IsSummary(Sort(durations), r)
  {
    var s := Sort(durations);
    var mean := MeanOf(s);
    var median := PercentileOf(s, 50.0);
    var p95 := PercentileOf(s, 95.0);
    var p99 := PercentileOf(s, 99.0);
    var min := if s == [] then 0.0 else s[0] as real;
    var max := if s == [] then 0.0 else s[|s| - 1] as real;
    var variance := VarianceOf(s, mean);
    var rate := RateOf(s);
    r := Summary(Sum(s), mean, median, p95, p99, min, max, variance, rate);
  }

  lemma SortedValuesAreRange(durations: seq<nat>, d: nat)
    requires d in durations
    ensures var s := Sort(durations); s != [] && s[0] <= d <= s[|s| - 1]
  {
    SortSorts(durations);
    var s := Sort(durations);
    assert d in multiset(s);
    var k :| 0 <= k < |s| && s[k] == d;
  }

  lemma PercentilesAreOrdered(s: seq<nat>, r: Summary)
    requires s != [] && Sorted(s) && IsSummary(s, r)
    ensures r.min <= r.median <= r.p95 <= r.p99 <= r.max
  {
    PercentileIsDetermined(s, 50.0, r.median);
    PercentileIsDetermined(s, 95.0, r.p95);
    PercentileIsDetermined(s, 99.0, r.p99);
    PercentileRises(s, 50.0, 95.0);
    PercentileRises(s, 95.0, 99.0);
  }

  /** The statistics are ordered and the mean lies among the values, for every non-empty list of durations. */
  lemma StatisticsAreOrdered(durations: seq<nat>, r: Summary)
    requires durations != [] && IsSummary(Sort(durations), r)
    ensures r.min <= r.median <= r.p95 <= r.p99 <= r.max
    ensures r.min <= r.mean <= r.max && r.variance >= 0.0
    ensures forall d :: d in durations ==> r.min <= d as real <= r.max
  {
    EndsCoverAll(durations);
    PercentilesAreOrdered(Sort(durations), r);
    MeanIsOrdered(Sort(durations), r);
  }

  lemma EndsCoverAll(durations: seq<nat>)
    requires durations != []
    ensures var s := Sort(durations);
            Sorted(s) && s != [] && forall d :: d in durations ==> s[0] <= d <= s[|s| - 1]
  {
    SortSorts(durations);
    SortedValuesAreRange(durations, durations[0]);
    forall d | d in durations ensures Sort(durations)[0] <= d <= Sort(durations)[|Sort(durations)| - 1] {
      SortedValuesAreRange(durations, d);
    }
  }

  lemma MeanIsOrdered(s: seq<nat>, r: Summary)
    requires s != [] && Sorted(s) && IsSummary(s, r)
    ensures r.min <= r.mean <= r.max && r.variance >= 0.0
  {
    MeanIsBetween(s, r.mean);
    VarianceNonNegative(s, r.mean, r.variance);
  }

  /** The median of the summary is the middle measurement, or the mean of the two in the middle. */
  lemma SummaryMedian(s: seq<nat>, r: Summary)
    requires s != [] && IsSummary(s, r)
    ensures var n := |s|;
            r.median == if n % 2 == 1 then s[n / 2] as real else (s[n / 2 - 1] as real + s[n / 2] as real) / 2.0
  {
    PercentileIsDetermined(s, 50.0, r.median);
    MedianIsMiddle(s, |s| / 2);
  }

  lemma SameFactor(x: real, y: real, c: real)
    requires c != 0.0 && x * c == y * c
    ensures x == y
  {
    assert (x - y) * c == x * c - y * c;
  }

  lemma SameTotals(s: seq<nat>, a: Summary, b: Summary)
    requires IsSummary(s, a) && IsSummary(s, b)
    ensures a.mean == b.mean && a.variance == b.variance && a.opsPerSec == b.opsPerSec
  {
    if s != [] {
      SameFactor(a.mean, b.mean, |s| as real);
    }
    if |s| > 1 {
      SameFactor(a.variance, b.variance, |s| as real - 1.0);
    }
    if Sum(s) != 0 {
      SameFactor(a.opsPerSec, b.opsPerSec, Sum(s) as real);
    }
  }

  lemma SamePercentiles(s: seq<nat>, a: Summary, b: Summary)
    requires s != [] && IsSummary(s, a) && IsSummary(s, b)
    ensures a.median == b.median && a.p95 == b.p95 && a.p99 == b.p99
  {
    PercentileIsDetermined(s, 50.0, a.median);
    PercentileIsDetermined(s, 50.0, b.median);
    PercentileIsDetermined(s, 95.0, a.p95);
    PercentileIsDetermined(s, 95.0, b.p95);
    PercentileIsDetermined(s, 99.0, a.p99);
    PercentileIsDetermined(s, 99.0, b.p99);
  }

  /** Nothing in the summary depends on the order of the measurements: permuted ones have the very same summary. */
  lemma OrderOfMeasurementsIsIrrelevant(a: seq<nat>, b: seq<nat>, ra: Summary, rb: Summary)
    requires multiset(a) == multiset(b) && IsSummary(Sort(a), ra) && IsSummary(Sort(b), rb)
    ensures ra == rb
  {
    SortSorts(a);
    SortSorts(b);
    SortedIsUnique(Sort(a), Sort(b));
    SameTotals(Sort(a), ra, rb);
    if Sort(a) != [] {
      SamePercentiles(Sort(a), ra, rb);
    }
  }
}
