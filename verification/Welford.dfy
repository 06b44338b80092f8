/**
 Welford's running mean and sum of squared deviations, as the three statistics classes of
 lib/event_counter update them, against the plain definitions over all samples.
 */
module Welford {
  import opened Sorting

  function Sum(xs: seq<int>): int {
    if xs == [] then 0 else Sum(xs[..|xs| - 1]) + xs[|xs| - 1]
  }

  function Square(x: real): real { x * x }

  /** The sum of squared distances of the samples from c. */
  function Deviations(xs: seq<int>, c: real): real {
    if xs == [] then 0.0
    else Deviations(xs[..|xs| - 1], c) + Square(xs[|xs| - 1] as real - c)
  }

  /** The running fields describe the samples: exact mean, and exact squared deviations from it. */
  ghost predicate Describes(count: nat, mean: real, m2: real, xs: seq<int>) {
    && count == |xs|
    && mean * count as real == Sum(xs) as real
    && (count == 0 ==> mean == 0.0)
    && m2 == Deviations(xs, mean)
  }

  lemma SumAppend(xs: seq<int>, x: int)
    ensures Sum(xs + [x]) == Sum(xs) + x
  {}

  lemma DeviationsAppend(xs: seq<int>, x: int, c: real)
    ensures Deviations(xs + [x], c) == Deviations(xs, c) + Square(x as real - c)
  {}

  lemma SquareShift(x: real, c: real, t: real)
    ensures Square(x - (c + t)) == Square(x - c) - 2.0 * t * x + 2.0 * t * c + t * t
  {}

  lemma ShiftAlgebra(n: real, k: real, t: real, sum: real, x: real)
    ensures (n + 1.0) * k == n * k + k
    ensures 2.0 * t * (sum + x) == 2.0 * t * sum + 2.0 * t * x
  {}

  /** Moving the centre by t changes the deviations by a known amount. */
  lemma {:induction false} DeviationsShift(xs: seq<int>, c: real, t: real)
    ensures Deviations(xs, c + t) ==
            Deviations(xs, c) - 2.0 * t * Sum(xs) as real + |xs| as real * (2.0 * t * c + t * t)
  {
    hide Square;
    if xs == [] {
    } else {
      var init, x := xs[..|xs| - 1], xs[|xs| - 1];
      DeviationsShift(init, c, t);
      SquareShift(x as real, c, t);
      ShiftAlgebra(|init| as real, 2.0 * t * c + t * t, t, Sum(init) as real, x as real);
    }
  }

  /** About the mean the cross term vanishes. */
  lemma DeviationsAboutMean(xs: seq<int>, mean: real, t: real)
    requires mean * |xs| as real == Sum(xs) as real
    ensures Deviations(xs, mean + t) == Deviations(xs, mean) + |xs| as real * (t * t)
  {
    hide Deviations, Sum;
    DeviationsShift(xs, mean, t);
    CrossTerm(|xs| as real, mean, t);
  }

  lemma CrossTerm(n: real, mean: real, t: real)
    ensures n * (2.0 * t * mean + t * t) - 2.0 * t * (mean * n) == n * (t * t)
  {
    assert 2.0 * t * (mean * n) == n * (2.0 * t * mean);
    assert n * (2.0 * t * mean + t * t) == n * (2.0 * t * mean) + n * (t * t);
  }

  /** The algebra of one update, with q the change of the mean. */
  lemma UpdateAlgebra(n: real, q: real)
    ensures n * (q * q) + Square(n * q) == (n + 1.0) * q * (n * q)
  {}

  lemma DivideThenMultiply(a: real, b: real)
    requires b != 0.0
    ensures b * (a / b) == a
  {}

  lemma MeanAlgebra(mean: real, n: real, q: real, x: real)
    requires (n + 1.0) * q == x - mean
    ensures (mean + q) * (n + 1.0) == mean * n + x
    ensures x - (mean + q) == n * q
  {}

  /** One Welford step keeps the description, now with the new sample included. */
  lemma Step(count: nat, mean: real, m2: real, xs: seq<int>, x: int, mean': real, m2': real)
    requires Describes(count, mean, m2, xs)
    requires mean' == mean + (x as real - mean) / (count + 1) as real
    requires m2' == m2 + (x as real - mean) * (x as real - mean')
    ensures Describes(count + 1, mean', m2', xs + [x])
  {
    hide Sum, Deviations, Square;
    var n := count as real;
    var delta := x as real - mean;
    var q := delta / (count + 1) as real;
    DivideThenMultiply(delta, (count + 1) as real);
    MeanAlgebra(mean, n, q, x as real);
    SumAppend(xs, x);
    DeviationsAppend(xs, x, mean');
    DeviationsAboutMean(xs, mean, q);
    UpdateAlgebra(n, q);
    assert delta == (n + 1.0) * q && x as real - mean' == n * q;
    assert Square(x as real - mean') == Square(n * q);
    assert delta * (n * q) == (n + 1.0) * q * (n * q);
  }

  /** The update all three classes perform on count, mean and m2. */
  method Observe(count: nat, mean: real, m2: real, x: int, ghost xs: seq<int>)
      returns (count': nat, mean': real, m2': real)
    requires Describes(count, mean, m2, xs)
    ensures count' == count + 1 && Describes(count', mean', m2', xs + [x])
  {
    hide Describes;
    count' := count + 1;
    var delta := x as real - mean;
    mean' := mean + delta / count' as real;
    var delta2 := x as real - mean';
    m2' := m2 + delta * delta2;
    Step(count, mean, m2, xs, x, mean', m2');
  }

  lemma {:induction false} DeviationsNonnegative(xs: seq<int>, c: real)
    ensures Deviations(xs, c) >= 0.0
  {
    if xs == [] {
    } else {
      DeviationsNonnegative(xs[..|xs| - 1], c);
    }
  }

  /**
   The accumulated m2 is nonnegative, so the standard deviation is always defined, and no
   other centre gives a smaller sum of squares: the running mean is the least-squares centre.
   */
  lemma MeanIsLeastSquares(count: nat, mean: real, m2: real, xs: seq<int>, c: real)
    requires Describes(count, mean, m2, xs)
    ensures 0.0 <= m2 <= Deviations(xs, c)
  {
    DeviationsNonnegative(xs, mean);
    DeviationsAboutMean(xs, mean, c - mean);
    var t := c - mean;
    assert t * t >= 0.0;
    assert |xs| as real * (t * t) >= 0.0;
  }

  /** The variance the classes publish. */
  function Variance(count: nat, m2: real): real {
    if count < 2 then 0.0 else m2 / count as real
  }

  /** It is the mean squared deviation for every sample count, the guarded ones included. */
  lemma VarianceIsMeanSquaredDeviation(count: nat, mean: real, m2: real, xs: seq<int>)
    requires Describes(count, mean, m2, xs)
    ensures Variance(count, m2) >= 0.0
    ensures Variance(count, m2) * count as real == Deviations(xs, mean)
  {
    DeviationsNonnegative(xs, mean);
    if count == 1 {
      assert xs[..0] == [] && Sum(xs) == xs[0];
      assert mean * 1.0 == xs[0] as real;
      assert Deviations(xs, mean) == Square(xs[0] as real - mean);
    } else if count > 1 {
      DivideThenMultiply(m2, count as real);
      QuotientNonnegative(m2, count as real);
    }
  }

  lemma QuotientNonnegative(a: real, b: real)
    requires a >= 0.0 && b > 0.0
    ensures a / b >= 0.0
  {}

  // ---------------------------------------------------------------------
  // Extremes
  // ---------------------------------------------------------------------

  function Min(a: int, b: int): int { if b < a then b else a }
  function Max(a: int, b: int): int { if b > a then b else a }

  /** Python's running min and max from a start value. */
  function MinOf(start: int, xs: seq<int>): int {
    if xs == [] then start else Min(MinOf(start, xs[..|xs| - 1]), xs[|xs| - 1])
  }

  function MaxOf(start: int, xs: seq<int>): int {
    if xs == [] then start else Max(MaxOf(start, xs[..|xs| - 1]), xs[|xs| - 1])
  }

  lemma ExtremesAppend(start: int, xs: seq<int>, x: int)
    ensures MinOf(start, xs + [x]) == Min(MinOf(start, xs), x)
    ensures MaxOf(start, xs + [x]) == Max(MaxOf(start, xs), x)
  {}

  lemma {:induction false} ExtremesBound(lo: int, hi: int, xs: seq<int>)
    ensures forall i :: 0 <= i < |xs| ==> MinOf(lo, xs) <= xs[i] <= MaxOf(hi, xs)
    ensures MinOf(lo, xs) <= lo && hi <= MaxOf(hi, xs)
    ensures MinOf(lo, xs) == lo || MinOf(lo, xs) in xs
    ensures MaxOf(hi, xs) == hi || MaxOf(hi, xs) in xs
  {
    if xs == [] {
    } else {
      var init, x := xs[..|xs| - 1], xs[|xs| - 1];
      ExtremesBound(lo, hi, init);
      assert xs == init + [x];
    }
  }

  lemma {:induction false} SumBetween(xs: seq<int>, lo: int, hi: int)
    requires forall i :: 0 <= i < |xs| ==> lo <= xs[i] <= hi
    ensures lo * |xs| <= Sum(xs) <= hi * |xs|
  {
    if xs == [] {
    } else {
      var init := xs[..|xs| - 1];
      SumBetween(init, lo, hi);
      assert lo * |xs| == lo * |init| + lo && hi * |xs| == hi * |init| + hi;
    }
  }

  /** min <= mean <= max, and the total lies between min*count and max*count. */
  lemma MeanBetweenExtremes(count: nat, mean: real, m2: real, xs: seq<int>, lo: int, hi: int)
    requires Describes(count, mean, m2, xs) && xs != []
    ensures var a, b := MinOf(lo, xs), MaxOf(hi, xs);
            && a as real <= mean <= b as real
            && a * count <= Sum(xs) <= b * count
  {
    var a, b := MinOf(lo, xs), MaxOf(hi, xs);
    ExtremesBound(lo, hi, xs);
    SumBetween(xs, a, b);
    AverageBetween(mean, count, Sum(xs), a, b);
  }

  lemma AverageBetween(mean: real, n: nat, sum: int, a: int, b: int)
    requires n > 0 && mean * n as real == sum as real
    requires a * n <= sum <= b * n
    ensures a as real <= mean <= b as real
  {
    assert (a * n) as real == a as real * n as real && (b * n) as real == b as real * n as real;
    CancelFactor(a as real, mean, n as real);
    CancelFactor(mean, b as real, n as real);
  }

  lemma CancelFactor(x: real, y: real, n: real)
    requires n > 0.0
    ensures x * n <= y * n ==> x <= y
  {
    assert x * n - y * n == (x - y) * n;
    if x > y {
      assert (x - y) * n > 0.0;
    }
  }

  // ---------------------------------------------------------------------
  // The rolling window and its percentiles
  // ---------------------------------------------------------------------

  const WINDOW := 512

  /** A deque with maxlen after appending all of xs. */
  function LastOf(xs: seq<int>, n: nat): (ys: seq<int>)
    ensures |ys| == if |xs| < n then |xs| else n
    ensures forall i :: 0 <= i < |ys| ==> ys[i] == xs[|xs| - |ys| + i]
  {
    if |xs| <= n then xs else xs[|xs| - n..]
  }

  function DequeAppend(window: seq<int>, x: int): seq<int> {
    if |window| < WINDOW then window + [x] else window[1..] + [x]
  }

  lemma WindowStep(xs: seq<int>, x: int)
    ensures DequeAppend(LastOf(xs, 512), x) == LastOf(xs + [x], 512)
  {}

  predicate Ascending(xs: seq<int>) {
    forall i, j :: 0 <= i < j < |xs| ==> xs[i] <= xs[j]
  }

  function Itself(x: int): int {
    x
  }

  function Sorted(xs: seq<int>): (ys: seq<int>)
    ensures |ys| == |xs|
  {
    SortKeepsEntries(Itself, xs);
    SortBy(Itself, xs)
  }

  /** How many samples are below v. */
  function CountBelow(xs: seq<int>, v: int): nat {
    if xs == [] then 0 else CountBelow(xs[1..], v) + if xs[0] < v then 1 else 0
  }

  lemma {:induction false} CountBelowAppend(xs: seq<int>, x: int, v: int)
    ensures CountBelow(xs + [x], v) == CountBelow(xs, v) + if x < v then 1 else 0
  {
    if xs == [] {
      assert ([] + [x])[1..] == [];
    } else {
      CountBelowAppend(xs[1..], x, v);
      assert (xs + [x])[1..] == xs[1..] + [x];
    }
  }

  lemma {:induction false} InsertCounts(x: int, xs: seq<int>, v: int)
    ensures CountBelow(InsertBy(Itself, x, xs), v) == CountBelow(xs, v) + if x < v then 1 else 0
  {
    CountBelowAppend(xs, x, v);
    if xs == [] {
    } else {
      var init, last := xs[..|xs| - 1], xs[|xs| - 1];
      assert xs == init + [last];
      InsertCounts(x, init, v);
      CountBelowAppend(init, last, v);
      CountBelowAppend(InsertBy(Itself, x, init), last, v);
    }
  }

  lemma {:induction false} SortCounts(xs: seq<int>, v: int)
    ensures CountBelow(SortBy(Itself, xs), v) == CountBelow(xs, v)
  {
    if xs == [] {
    } else {
      hide InsertBy, CountBelow;
      var init, x := xs[..|xs| - 1], xs[|xs| - 1];
      assert xs == init + [x];
      SortCounts(init, v);
      InsertCounts(x, SortBy(Itself, init), v);
      CountBelowAppend(init, x, v);
    }
  }

  lemma SortedFacts(xs: seq<int>, v: int)
    ensures Ascending(Sorted(xs))
    ensures CountBelow(Sorted(xs), v) == CountBelow(xs, v)
    ensures forall y :: y in Sorted(xs) <==> y in xs
  {
    SortIsSorted(Itself, xs);
    SortKeepsEntries(Itself, xs);
    SortCounts(xs, v);
    assert forall y :: y in Sorted(xs) <==> y in multiset(Sorted(xs));
    assert forall y :: y in xs <==> y in multiset(xs);
  }

  lemma {:induction false} RankInAscending(xs: seq<int>, k: nat)
    requires Ascending(xs) && k < |xs|
    ensures CountBelow(xs, xs[k]) <= k < CountBelow(xs, xs[k] + 1)
  {
    if k == 0 {
      NoneBelow(xs, xs[0]);
    } else {
      RankInAscending(xs[1..], k - 1);
      assert xs[0] <= xs[k];
    }
  }

  lemma {:induction false} NoneBelow(xs: seq<int>, v: int)
    requires forall i :: 0 <= i < |xs| ==> v <= xs[i]
    ensures CountBelow(xs, v) == 0
  {
    if xs == [] {
    } else {
      NoneBelow(xs[1..], v);
    }
  }

  lemma {:induction false} CountBelowGrows(xs: seq<int>, v: int, w: int)
    requires v <= w
    ensures CountBelow(xs, v) <= CountBelow(xs, w)
  {
    if xs == [] {
    } else {
      CountBelowGrows(xs[1..], v, w);
    }
  }

  /** v has rank k among the samples: at most k lie below it, more than k lie at or below it. */
  predicate HasRank(xs: seq<int>, k: nat, v: int) {
    CountBelow(xs, v) <= k < CountBelow(xs, v + 1)
  }

  /** The k-th element of the sorted window is a sample of rank k, and the only number of that rank. */
  lemma SortedPicksRank(xs: seq<int>, k: nat, v: int)
    requires k < |xs|
    ensures Sorted(xs)[k] in xs
    ensures HasRank(xs, k, v) <==> v == Sorted(xs)[k]
  {
    hide CountBelow, Sorted;
    var s := Sorted(xs)[k];
    SortedHasRank(xs, k);
    if v < s {
      CountBelowGrows(xs, v + 1, s);
    } else if v > s {
      CountBelowGrows(xs, s + 1, v);
    }
  }

  lemma SortedHasRank(xs: seq<int>, k: nat)
    requires k < |xs|
    ensures Sorted(xs)[k] in xs && HasRank(xs, k, Sorted(xs)[k])
  {
    hide CountBelow, Sorted;
    var s := Sorted(xs)[k];
    SortedFacts(xs, s);
    SortedFacts(xs, s + 1);
    RankInAscending(Sorted(xs), k);
    assert s in Sorted(xs);
  }

  lemma ScaleBound(x: real, p: real)
    requires 0.0 <= x && 0.0 <= p <= 1.0
    ensures 0.0 <= x * p <= x
  {}

  /** The index of a percentile in a sorted window: int((n - 1) * p). */
  function RankOf(n: nat, p: real): (k: nat)
    requires n > 0 && 0.0 <= p <= 1.0
    ensures k < n
    ensures k as real <= (n - 1) as real * p < k as real + 1.0
  {
    ScaleBound((n - 1) as real, p);
    ((n - 1) as real * p).Floor
  }

  function Percentile(window: seq<int>, p: real): int
    requires 0.0 <= p <= 1.0
  {
    if window == [] then 0 else Sorted(window)[RankOf(|window|, p)]
  }

  lemma RankGrows(n: nat, p: real, q: real)
    requires n > 0 && 0.0 <= p <= q <= 1.0
    ensures RankOf(n, p) <= RankOf(n, q)
  {
    ScaleBound((n - 1) as real, q - p);
    assert (n - 1) as real * q == (n - 1) as real * p + (n - 1) as real * (q - p);
  }

  lemma PercentilesOrdered(window: seq<int>, p: real, q: real)
    requires 0.0 <= p <= q <= 1.0
    ensures Percentile(window, p) <= Percentile(window, q)
  {
    hide Sorted, RankOf;
    if window != [] {
      SortedFacts(window, 0);
      RankGrows(|window|, p, q);
    }
  }

  /** The three published percentiles: each has its rank in the window, or all are 0 if it is empty. */
  predicate ArePercentiles(window: seq<int>, p50: int, p95: int, p99: int) {
    if window == [] then p50 == p95 == p99 == 0
    else
      var n := |window|;
      && p50 in window && HasRank(window, RankOf(n, 0.50), p50)
      && p95 in window && HasRank(window, RankOf(n, 0.95), p95)
      && p99 in window && HasRank(window, RankOf(n, 0.99), p99)
  }

  method ReadPercentiles(window: seq<int>) returns (p50: int, p95: int, p99: int)
    ensures ArePercentiles(window, p50, p95, p99)
    ensures p50 <= p95 <= p99
  {
    hide Sorted, RankOf, HasRank;
    var n := |window|;
    if n > 0 {
      var sorted := Sorted(window);
      p50 := sorted[RankOf(n, 0.50)];
      p95 := sorted[RankOf(n, 0.95)];
      p99 := sorted[RankOf(n, 0.99)];
      SortedHasRank(window, RankOf(n, 0.50));
      SortedHasRank(window, RankOf(n, 0.95));
      SortedHasRank(window, RankOf(n, 0.99));
    } else {
      p50, p95, p99 := 0, 0, 0;
    }
    PercentilesOrdered(window, 0.50, 0.95);
    PercentilesOrdered(window, 0.95, 0.99);
  }
}
