/** `percentile` and `compute_numeric_stats` of
    crates/bench/src/benchmark_harness.rs, over the reals. */
module Stats {
  import opened Results
  import opened Ordering

  predicate AtMost(a: real, b: real) {
    a <= b
  }

  ghost predicate Ascending(xs: seq<real>) {
    Sorted(xs, AtMost)
  }

  // ---------------------------------------------------------------- percentile

  function Clamped(ratio: real): real {
    if ratio < 0.0 then 0.0 else if ratio > 1.0 then 1.0 else ratio
  }

  function Ceiling(r: real): int {
    if r == r.Floor as real then r.Floor else r.Floor + 1
  }

  /** Interpolation between the neighbours of a rank. */
  function AtRank(xs: seq<real>, rank: real): real
    requires |xs| >= 2 && 0.0 <= rank <= (|xs| - 1) as real
  {
    var lower, upper := rank.Floor, Ceiling(rank);
    var lowerVal := xs[lower];
    var upperVal := if upper < |xs| then xs[upper] else lowerVal;
    if lower == upper then lowerVal
    else lowerVal + (upperVal - lowerVal) * (rank - lower as real)
  }

  function Rank(n: nat, ratio: real): (r: real)
    requires n >= 2
    ensures 0.0 <= r <= (n - 1) as real
  {
    RankInRange(Clamped(ratio), (n - 1) as real);
    Clamped(ratio) * (n - 1) as real
  }

  lemma RankInRange(c: real, m: real)
    requires 0.0 <= c <= 1.0 && m >= 0.0
    ensures 0.0 <= c * m <= m
  {
  }

  function Percentile(sorted: seq<real>, ratio: real): real {
    if sorted == [] then 0.0
    else if |sorted| == 1 then sorted[0]
    else AtRank(sorted, Rank(|sorted|, ratio))
  }

  lemma ProductSign(x: real, y: real)
    requires x >= 0.0 && y >= 0.0
    ensures x * y >= 0.0
  {
  }

  lemma Weighted(a: real, b: real, w: real)
    requires a <= b && 0.0 <= w <= 1.0
    ensures a <= a + (b - a) * w <= b
  {
    var d := b - a;
    ProductSign(d, w);
    ProductSign(d, 1.0 - w);
    assert d * (1.0 - w) == d - d * w;
  }

  lemma WeightedMonotone(a: real, b: real, w: real, v: real)
    requires a <= b && w <= v
    ensures a + (b - a) * w <= a + (b - a) * v
  {
    var d := b - a;
    ProductSign(d, v - w);
    assert d * (v - w) == d * v - d * w;
  }

  /** The value at a rank lies between the two neighbouring samples. */
  lemma AtRankBetween(xs: seq<real>, rank: real)
    requires |xs| >= 2 && 0.0 <= rank <= (|xs| - 1) as real && Ascending(xs)
    ensures xs[rank.Floor] <= AtRank(xs, rank)
    ensures rank.Floor + 1 < |xs| ==> AtRank(xs, rank) <= xs[rank.Floor + 1]
    ensures rank == rank.Floor as real ==> AtRank(xs, rank) == xs[rank.Floor]
  {
    var lower := rank.Floor;
    if lower + 1 < |xs| {
      assert AtMost(xs[lower], xs[lower + 1]);
      Weighted(xs[lower], xs[lower + 1], rank - lower as real);
    }
  }

  lemma AtRankMonotone(xs: seq<real>, a: real, b: real)
    requires |xs| >= 2 && 0.0 <= a <= b <= (|xs| - 1) as real && Ascending(xs)
    ensures AtRank(xs, a) <= AtRank(xs, b)
  {
    AtRankBetween(xs, a);
    AtRankBetween(xs, b);
    var i, j := a.Floor, b.Floor;
    assert i <= j;
    if i < j {
      assert i + 1 < j ==> AtMost(xs[i + 1], xs[j]);
    } else if i + 1 < |xs| {
      assert AtMost(xs[i], xs[i + 1]);
      WeightedMonotone(xs[i], xs[i + 1], a - i as real, b - i as real);
    }
  }

  /** Percentiles of a sorted sample grow with the ratio, across sample
      boundaries too, start at the minimum and end at the maximum. */
  lemma PercentileMonotone(xs: seq<real>, r: real, s: real)
    requires Ascending(xs) && r <= s
    ensures Percentile(xs, r) <= Percentile(xs, s)
  {
    if |xs| >= 2 {
      RankMonotone(|xs|, r, s);
      AtRankMonotone(xs, Rank(|xs|, r), Rank(|xs|, s));
    }
  }

  lemma RankMonotone(n: nat, r: real, s: real)
    requires n >= 2 && r <= s
    ensures Rank(n, r) <= Rank(n, s)
  {
    var m := (n - 1) as real;
    ProductSign(Clamped(s) - Clamped(r), m);
    assert (Clamped(s) - Clamped(r)) * m == Clamped(s) * m - Clamped(r) * m;
  }

  lemma PercentileEnds(xs: seq<real>, r: real)
    ensures xs == [] ==> Percentile(xs, r) == 0.0
    ensures xs != [] && r <= 0.0 ==> Percentile(xs, r) == xs[0]
    ensures xs != [] && r >= 1.0 ==> Percentile(xs, r) == xs[|xs| - 1]
  {
    if |xs| >= 2 {
      assert r <= 0.0 ==> Rank(|xs|, r) == 0.0;
      assert r >= 1.0 ==> Rank(|xs|, r) == (|xs| - 1) as real;
    }
  }

  /** Percentiles are the piecewise linear curve through the samples, spaced
      evenly over the ratios 0 to 1. */
  lemma PercentileInterpolates(xs: seq<real>, k: nat, w: real)
    requires k + 1 < |xs| && 0.0 <= w <= 1.0
    ensures Percentile(xs, (k as real + w) / (|xs| - 1) as real) == (1.0 - w) * xs[k] + w * xs[k + 1]
  {
    var m := (|xs| - 1) as real;
    var rank := k as real + w;
    Scaled(rank, m);
    assert Rank(|xs|, rank / m) == rank;
    if w < 1.0 {
      assert rank.Floor == k;
    } else {
      assert rank.Floor == k + 1;
    }
    assert (xs[k + 1] - xs[k]) * w == w * xs[k + 1] - w * xs[k];
  }

  lemma Scaled(rank: real, m: real)
    requires 0.0 <= rank <= m && m > 0.0
    ensures 0.0 <= rank / m <= 1.0 && rank / m * m == rank
  {
  }

  // --------------------------------------------------------------------- stats

  datatype NumericStats = NumericStats(
    count: nat, min: Option<real>, max: Option<real>, avg: Option<real>,
    p50: Option<real>, p95: Option<real>, p99: Option<real>)

  function Sum(xs: seq<real>): real {
    if xs == [] then 0.0 else xs[0] + Sum(xs[1..])
  }

  function ComputeNumericStats(values: seq<real>): NumericStats {
    if values == [] then NumericStats(0, None, None, None, None, None, None)
    else
      var sorted := Sort(values, AtMost);
      SameElements(sorted, values);
      NumericStats(
        |sorted|, Some(sorted[0]), Some(sorted[|sorted| - 1]), Some(Sum(sorted) / |sorted| as real),
        Some(Percentile(sorted, 0.50)), Some(Percentile(sorted, 0.95)), Some(Percentile(sorted, 0.99)))
  }

  lemma {:induction false} SumBounds(xs: seq<real>, lo: real, hi: real)
    requires forall i :: 0 <= i < |xs| ==> lo <= xs[i] <= hi
    ensures lo * |xs| as real <= Sum(xs) <= hi * |xs| as real
  {
    if xs == [] {
    } else {
      SumBounds(xs[1..], lo, hi);
      var n := |xs[1..]| as real;
      assert |xs| as real == n + 1.0;
      assert lo * (n + 1.0) == lo * n + lo && hi * (n + 1.0) == hi * n + hi;
    }
  }

  lemma AverageBounds(sum: real, n: real, lo: real, hi: real)
    requires n > 0.0 && lo * n <= sum <= hi * n
    ensures lo <= sum / n <= hi
  {
    assert sum == (sum / n) * n;
  }

  lemma {:induction false} SumInsert(x: real, xs: seq<real>)
    ensures Sum(Insert(x, xs, AtMost)) == x + Sum(xs)
  {
    if xs != [] && !AtMost(x, xs[0]) {
      SumInsert(x, xs[1..]);
      assert Insert(x, xs, AtMost)[1..] == Insert(x, xs[1..], AtMost);
    } else {
      assert ([x] + xs)[1..] == xs;
    }
  }

  lemma {:induction false} SumSorted(xs: seq<real>)
    ensures Sum(Sort(xs, AtMost)) == Sum(xs)
  {
    if xs == [] {
    } else {
      SumSorted(xs[1..]);
      SumInsert(xs[0], Sort(xs[1..], AtMost));
    }
  }

  lemma Extremes(values: seq<real>)
    requires values != []
    ensures var sorted := Sort(values, AtMost);
      && |sorted| == |values| && Ascending(sorted)
      && sorted[0] in values && sorted[|sorted| - 1] in values
      && (forall v :: v in values ==> sorted[0] <= v <= sorted[|sorted| - 1])
      && (forall i :: 0 <= i < |sorted| ==> sorted[0] <= sorted[i] <= sorted[|sorted| - 1])
  {
    hide Sort;
    var sorted := Sort(values, AtMost);
    SortSorted(values, AtMost);
    assert sorted[0] in sorted && sorted[|sorted| - 1] in sorted;
    forall i | 0 <= i < |sorted| ensures sorted[0] <= sorted[i] <= sorted[|sorted| - 1] {
      assert i > 0 ==> AtMost(sorted[0], sorted[i]);
      assert i < |sorted| - 1 ==> AtMost(sorted[i], sorted[|sorted| - 1]);
    }
    forall v | v in values ensures sorted[0] <= v <= sorted[|sorted| - 1] {
      assert v in sorted;
    }
  }

  lemma PercentileChain(xs: seq<real>)
    requires xs != [] && Ascending(xs)
    ensures xs[0] <= Percentile(xs, 0.50) <= Percentile(xs, 0.95) <= Percentile(xs, 0.99) <= xs[|xs| - 1]
  {
    hide Percentile, Sorted;
    PercentileEnds(xs, 0.0);
    PercentileMonotone(xs, 0.0, 0.50);
    PercentileMonotone(xs, 0.50, 0.95);
    PercentileMonotone(xs, 0.95, 0.99);
    PercentileMonotone(xs, 0.99, 1.0);
    PercentileEnds(xs, 1.0);
  }

  /** Every non-empty sample has
      min <= p50 <= p95 <= p99 <= max with the average in range; the minimum
      and maximum are samples and bound all samples. */
  lemma StatsInOrder(values: seq<real>)
    ensures values == [] ==> ComputeNumericStats(values) == NumericStats(0, None, None, None, None, None, None)
    ensures values != [] ==> var s := ComputeNumericStats(values);
      && s.count == |values|
      && s.min.Some? && s.max.Some? && s.avg.Some? && s.p50.Some? && s.p95.Some? && s.p99.Some?
      && s.min.value in values && s.max.value in values
      && (forall v :: v in values ==> s.min.value <= v <= s.max.value)
      && s.min.value <= s.p50.value <= s.p95.value <= s.p99.value <= s.max.value
      && s.min.value <= s.avg.value <= s.max.value
      && s.avg.value * |values| as real == Sum(values)
  {
    hide Percentile, Sort, Sum, Sorted;
    if values != [] {
      var sorted := Sort(values, AtMost);
      Extremes(values);
      SumSorted(values);
      PercentileChain(sorted);
      SumBounds(sorted, sorted[0], sorted[|sorted| - 1]);
      AverageBounds(Sum(sorted), |sorted| as real, sorted[0], sorted[|sorted| - 1]);
    }
  }

  /** With 100m + 1 samples the three percentiles are samples themselves: 50m,
      95m and 99m of the others lie below them in sorted order. */
  lemma WholeRanks(values: seq<real>, m: nat)
    requires m > 0 && |values| == 100 * m + 1
    ensures var s, sorted := ComputeNumericStats(values), Sort(values, AtMost);
      && |sorted| == |values|
      && s.p50 == Some(sorted[50 * m]) && s.p95 == Some(sorted[95 * m]) && s.p99 == Some(sorted[99 * m])
  {
    hide Percentile, Sort, Sum;
    var sorted := Sort(values, AtMost);
    SameElements(sorted, values);
    PercentileInterpolates(sorted, 50 * m, 0.0);
    PercentileInterpolates(sorted, 95 * m, 0.0);
    PercentileInterpolates(sorted, 99 * m, 0.0);
    Hundredth(50, m);
    Hundredth(95, m);
    Hundredth(99, m);
  }

  lemma Hundredth(k: nat, m: nat)
    requires m > 0
    ensures (k * m) as real / (100 * m) as real == k as real / 100.0
  {
    assert (k * m) as real == k as real * m as real;
    assert (100 * m) as real == 100.0 * m as real;
  }

  /** The statistics do not depend on the order of the samples. */
  lemma StatsPermutation(values: seq<real>, others: seq<real>)
    requires multiset(values) == multiset(others)
    ensures ComputeNumericStats(values) == ComputeNumericStats(others)
  {
    SameElements(values, others);
    SortPermutation(values, others, AtMost);
  }
}
