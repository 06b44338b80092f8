/**
 The three statistics classes of lib/event_counter.  Each keeps a ghost log of everything it
 was told; `Valid` says what its running fields mean in terms of that log.
 */
module EventStats {
  import opened Common
  import opened Welford

  /** 2**63 - 1, the start value of every running minimum. */
  const MIN_START := 0x7fff_ffff_ffff_ffff

  // ---------------------------------------------------------------------
  // latency.py
  // ---------------------------------------------------------------------

  /** The samples that enter the model: negative latencies are only counted. */
  function ValidLatencies(log: seq<int>): seq<int> {
    if log == [] then []
    else
      var init, x := ValidLatencies(log[..|log| - 1]), log[|log| - 1];
      if x < 0 then init else init + [x]
  }

  lemma ValidLatenciesAppend(log: seq<int>, x: int)
    ensures ValidLatencies(log + [x]) == if x < 0 then ValidLatencies(log) else ValidLatencies(log) + [x]
  {}

  const ALPHA := 0.1

  function Ewma(xs: seq<int>): real {
    if xs == [] then -1.0
    else if |xs| == 1 then xs[0] as real
    else ALPHA * xs[|xs| - 1] as real + (1.0 - ALPHA) * Ewma(xs[..|xs| - 1])
  }

  function Abs(x: int): nat { if x < 0 then -x else x }

  /** The distances between neighbouring samples. */
  function Jumps(xs: seq<int>): seq<int> {
    if |xs| < 2 then []
    else Jumps(xs[..|xs| - 1]) + [Abs(xs[|xs| - 1] - xs[|xs| - 2])]
  }

  lemma {:induction false} EwmaBetween(xs: seq<int>, lo: int, hi: int)
    requires xs != []
    requires forall i :: 0 <= i < |xs| ==> lo <= xs[i] <= hi
    ensures lo as real <= Ewma(xs) <= hi as real
  {
    if |xs| <= 1 {
    } else {
      EwmaBetween(xs[..|xs| - 1], lo, hi);
    }
  }

  /** The smoothed latency stays between the smallest and the largest sample. */
  lemma {:induction false} EwmaBetweenExtremes(xs: seq<int>)
    requires xs != []
    ensures MinOf(xs[0], xs) as real <= Ewma(xs) <= MaxOf(xs[0], xs) as real
  {
    ExtremesBound(xs[0], xs[0], xs);
    EwmaBetween(xs, MinOf(xs[0], xs), MaxOf(xs[0], xs));
  }

  lemma {:induction false} ValidLatenciesNonnegative(log: seq<int>)
    ensures forall i :: 0 <= i < |ValidLatencies(log)| ==> ValidLatencies(log)[i] >= 0
    ensures |ValidLatencies(log)| <= |log|
  {
    if log == [] {
    } else {
      ValidLatenciesNonnegative(log[..|log| - 1]);
    }
  }

  /** Jitter is taken between neighbouring valid samples. */
  ghost predicate JitterTracked(prev: int, sum: int, count: nat, max: int, xs: seq<int>) {
    && prev == (if xs == [] then -1 else xs[|xs| - 1])
    && sum == Sum(Jumps(xs)) && count == |Jumps(xs)| && max == MaxOf(0, Jumps(xs))
  }

  class LatencyStat {
    var count: nat
    var min: int
    var max: int
    var badLatencyCount: nat
    var mean: real
    var m2: real
    var samples: seq<int>
    var prevLatency: int
    var jitterSum: int
    var jitterCount: nat
    var jitterMax: int
    var ewma: real
    ghost var log: seq<int>

    ghost predicate Valid()
      reads this
    {
      var xs := ValidLatencies(log);
      && Describes(count, mean, m2, xs)
      && min == MinOf(MIN_START, xs) && max == MaxOf(0, xs)
      && badLatencyCount + |xs| == |log|
      && samples == LastOf(xs, WINDOW)
      && JitterTracked(prevLatency, jitterSum, jitterCount, jitterMax, xs)
      && ewma == Ewma(xs)
    }

    constructor ()
      ensures Valid() && log == []
    {
      count, min, max, badLatencyCount := 0, MIN_START, 0, 0;
      mean, m2, samples := 0.0, 0.0, [];
      prevLatency, jitterSum, jitterCount, jitterMax := -1, 0, 0, 0;
      ewma := -1.0;
      log := [];
    }

    method ObservePacket(senderTsNs: int, recvTsNs: int)
      requires Valid()
      modifies this
      ensures Valid() && log == old(log) + [recvTsNs - senderTsNs]
    {
      hide Describes, ValidLatencies, MinOf, MaxOf, Ewma, LastOf, DequeAppend, JitterTracked;
      var latency := recvTsNs - senderTsNs;
      ghost var xs := ValidLatencies(log);
      ValidLatenciesAppend(log, latency);
      log := log + [latency];
      if latency < 0 {
        badLatencyCount := badLatencyCount + 1;
        return;
      }
      ValidLatenciesNonnegative(old(log));
      ExtremesAppend(MIN_START, xs, latency);
      ExtremesAppend(0, xs, latency);

      count, mean, m2 := Observe(count, mean, m2, latency, xs);
      min := Min(min, latency);
      max := Max(max, latency);

      WindowStep(xs, latency);
      samples := DequeAppend(samples, latency);

      TrackJitter(latency, xs);
      TrackEwma(latency, xs);
    }

    /** What to_dict reads off the window of the last 512 valid latencies. */
    method Percentiles() returns (p50: int, p95: int, p99: int)
      requires Valid()
      ensures ArePercentiles(LastOf(ValidLatencies(log), 512), p50, p95, p99)
      ensures p50 <= p95 <= p99
    {
      p50, p95, p99 := ReadPercentiles(samples);
    }

    method TrackJitter(latency: int, ghost xs: seq<int>)
      requires JitterTracked(prevLatency, jitterSum, jitterCount, jitterMax, xs)
      requires forall i :: 0 <= i < |xs| ==> xs[i] >= 0
      modifies this`prevLatency, this`jitterSum, this`jitterCount, this`jitterMax
      ensures JitterTracked(prevLatency, jitterSum, jitterCount, jitterMax, xs + [latency])
    {
      JumpsStep(xs, latency);
      if prevLatency >= 0 {
        var jitter := Abs(latency - prevLatency);
        jitterSum := jitterSum + jitter;
        jitterCount := jitterCount + 1;
        jitterMax := Max(jitterMax, jitter);
      }
      prevLatency := latency;
    }

    method TrackEwma(latency: int, ghost xs: seq<int>)
      requires ewma == Ewma(xs)
      requires forall i :: 0 <= i < |xs| ==> xs[i] >= 0
      modifies this`ewma
      ensures ewma == Ewma(xs + [latency])
    {
      EwmaSign(xs);
      EwmaAppend(xs, latency);
      if ewma < 0.0 {
        ewma := latency as real;
      } else {
        ewma := ALPHA * latency as real + (1.0 - ALPHA) * ewma;
      }
    }
  }

  lemma {:induction false} EwmaSign(xs: seq<int>)
    requires forall i :: 0 <= i < |xs| ==> xs[i] >= 0
    ensures Ewma(xs) < 0.0 <==> xs == []
  {
    if xs == [] {
    } else {
      ExtremesBound(0, 0, xs);
      EwmaBetween(xs, 0, MaxOf(0, xs));
    }
  }

  /** The first sample as it is, then each a tenth of the way from the smoothed value to the sample. */
  lemma EwmaAppend(xs: seq<int>, x: int)
    ensures Ewma(xs + [x]) == if xs == [] then x as real else Ewma(xs) + (x as real - Ewma(xs)) / 10.0
  {}

  lemma JumpsStep(xs: seq<int>, x: int)
    ensures xs == [] ==> Jumps(xs + [x]) == Jumps(xs) == []
    ensures xs != [] ==>
              var js, j := Jumps(xs), Abs(x - xs[|xs| - 1]);
              && Jumps(xs + [x]) == js + [j]
              && Sum(js + [j]) == Sum(js) + j
              && MaxOf(0, js + [j]) == Max(MaxOf(0, js), j)
  {}

  /**
   The published maximum is always one of the samples; the published minimum is one exactly
   when some sample does not exceed the start value.
   */
  lemma ExtremesAreSamples(xs: seq<int>)
    requires xs != [] && forall i :: 0 <= i < |xs| ==> xs[i] >= 0
    ensures MaxOf(0, xs) in xs
    ensures MinOf(MIN_START, xs) in xs <==> exists i :: 0 <= i < |xs| && xs[i] <= 0x7fff_ffff_ffff_ffff
  {
    ExtremesBound(MIN_START, 0, xs);
    assert xs[0] <= MaxOf(0, xs);
    if MaxOf(0, xs) == 0 {
      assert xs[0] == 0;
    }
    if i :| 0 <= i < |xs| && xs[i] <= MIN_START {
      if MinOf(MIN_START, xs) == MIN_START {
        assert xs[i] == MIN_START;
      }
    }
    if MinOf(MIN_START, xs) in xs {
      var i :| 0 <= i < |xs| && xs[i] == MinOf(MIN_START, xs);
    }
  }

  // ---------------------------------------------------------------------
  // frame_render.py
  // ---------------------------------------------------------------------

  /** A frame timestamp, or EventCounter.reset_frame_timing forgetting the last one. */
  datatype FrameEvent = Frame(nowNs: int) | Reset

  /** The baseline the next frame is measured from; 0 means there is none. */
  function LastFrame(log: seq<FrameEvent>): int {
    if log == [] then 0
    else if log[|log| - 1].Reset? then 0
    else log[|log| - 1].nowNs
  }

  /** The frame intervals that count: from a baseline, and positive. */
  function Intervals(log: seq<FrameEvent>): seq<int> {
    if log == [] then []
    else
      var init, e := log[..|log| - 1], log[|log| - 1];
      if e.Reset? || LastFrame(init) == 0 || e.nowNs <= LastFrame(init) then Intervals(init)
      else Intervals(init) + [e.nowNs - LastFrame(init)]
  }

  lemma IntervalsAppend(log: seq<FrameEvent>, e: FrameEvent)
    ensures LastFrame(log + [e]) == if e.Reset? then 0 else e.nowNs
    ensures Intervals(log + [e]) ==
            if e.Reset? || LastFrame(log) == 0 || e.nowNs <= LastFrame(log) then Intervals(log)
            else Intervals(log) + [e.nowNs - LastFrame(log)]
  {}

  /** Intervals i..j are all over budget. */
  ghost predicate MissedRun(xs: seq<int>, budget: int, i: int, j: int) {
    0 <= i <= j <= |xs| && forall k :: i <= k < j ==> xs[k] > budget
  }

  /** r is the length of the longest run of consecutive over-budget intervals. */
  ghost predicate LongestMissedRun(xs: seq<int>, budget: int, r: nat) {
    && (exists i, j :: MissedRun(xs, budget, i, j) && j - i == r)
    && (forall i, j :: MissedRun(xs, budget, i, j) ==> j - i <= r)
  }

  /** s is the length of the over-budget run that ends with the last interval. */
  ghost predicate TrailingMissedRun(xs: seq<int>, budget: int, s: nat) {
    && MissedRun(xs, budget, |xs| - s, |xs|)
    && (s < |xs| ==> xs[|xs| - s - 1] <= budget)
  }

  lemma StreakStep(xs: seq<int>, budget: int, s: nat, r: nat, x: int)
    requires TrailingMissedRun(xs, budget, s) && LongestMissedRun(xs, budget, r)
    ensures var s' := if x > budget then s + 1 else 0;
            && TrailingMissedRun(xs + [x], budget, s')
            && LongestMissedRun(xs + [x], budget, Max(r, s'))
  {
    var xs' := xs + [x];
    var s' := if x > budget then s + 1 else 0;
    var r' := Max(r, s');
    var from, to :| MissedRun(xs, budget, from, to) && to - from == r;
    assert MissedRun(xs', budget, from, to);
    assert MissedRun(xs', budget, |xs'| - s', |xs'|);
    forall i, j | MissedRun(xs', budget, i, j)
      ensures j - i <= r'
    {
      if j <= |xs| {
        assert forall k :: i <= k < j ==> xs[k] == xs'[k];
        assert MissedRun(xs, budget, i, j);
      } else {
        TrailingRunIsLongestAtEnd(xs', budget, s', i);
      }
    }
  }

  lemma TrailingRunIsLongestAtEnd(xs: seq<int>, budget: int, s: nat, i: int)
    requires TrailingMissedRun(xs, budget, s) && MissedRun(xs, budget, i, |xs|)
    ensures |xs| - i <= s
  {}

  function Errors(xs: seq<int>, budget: int): seq<int> {
    seq(|xs|, i requires 0 <= i < |xs| => Abs(xs[i] - budget))
  }

  function CountOver(xs: seq<int>, limit: int): nat {
    if xs == [] then 0
    else CountOver(xs[..|xs| - 1], limit) + if xs[|xs| - 1] > limit then 1 else 0
  }

  lemma BudgetAppend(xs: seq<int>, budget: int, x: int)
    ensures var es, e := Errors(xs, budget), Abs(x - budget);
            && Sum(Errors(xs + [x], budget)) == Sum(es) + e
            && MaxOf(0, Errors(xs + [x], budget)) == Max(MaxOf(0, es), e)
    ensures CountOver(xs + [x], budget) == CountOver(xs, budget) + if x > budget then 1 else 0
  {
    assert (xs + [x])[..|xs|] == xs;
    assert Errors(xs + [x], budget) == Errors(xs, budget) + [Abs(x - budget)];
    SumAppend(Errors(xs, budget), Abs(x - budget));
    ExtremesAppend(0, Errors(xs, budget), Abs(x - budget));
  }

  /** With a budget set: misses, streaks and pacing errors; without one they stay at zero. */
  ghost predicate BudgetTracked(budget: int, missed: nat, streak: nat, maxStreak: nat,
                                errorSum: int, maxError: int, xs: seq<int>)
  {
    if budget == 0 then missed == streak == maxStreak == errorSum == maxError == 0
    else
      && missed == CountOver(xs, budget)
      && TrailingMissedRun(xs, budget, streak)
      && LongestMissedRun(xs, budget, maxStreak)
      && errorSum == Sum(Errors(xs, budget)) && maxError == MaxOf(0, Errors(xs, budget))
  }

  class FrameTimingStat {
    var count: nat
    var min: int
    var max: int
    var mean: real
    var m2: real
    const frameBudgetNs: int
    var missedFrames: nat
    var currentMissStreak: nat
    var maxMissStreak: nat
    var pacingErrorSum: int
    var maxPacingError: int
    var lastTsNs: int
    ghost var log: seq<FrameEvent>

    ghost predicate Valid()
      reads this
    {
      var xs := Intervals(log);
      && Describes(count, mean, m2, xs)
      && min == MinOf(MIN_START, xs) && max == MaxOf(0, xs)
      && lastTsNs == LastFrame(log)
      && BudgetTracked(frameBudgetNs, missedFrames, currentMissStreak, maxMissStreak,
                       pacingErrorSum, maxPacingError, xs)
    }

    constructor (budgetNs: int)
      ensures Valid() && log == [] && frameBudgetNs == budgetNs
    {
      count, min, max, mean, m2 := 0, MIN_START, 0, 0.0, 0.0;
      frameBudgetNs := budgetNs;
      missedFrames, currentMissStreak, maxMissStreak := 0, 0, 0;
      pacingErrorSum, maxPacingError, lastTsNs := 0, 0, 0;
      log := [];
      new;
      assert MissedRun([], budgetNs, 0, 0);
    }

    method ResetBaseline()
      requires Valid()
      modifies this`lastTsNs, this`log
      ensures Valid() && log == old(log) + [Reset]
    {
      IntervalsAppend(log, Reset);
      lastTsNs := 0;
      log := log + [Reset];
    }

    method ObserveFrame(nowNs: int)
      requires Valid()
      modifies this
      ensures Valid() && log == old(log) + [Frame(nowNs)]
    {
      hide Describes, Intervals, LastFrame, MinOf, MaxOf, BudgetTracked;
      IntervalsAppend(log, Frame(nowNs));
      ghost var xs := Intervals(log);
      log := log + [Frame(nowNs)];
      if lastTsNs == 0 {
        lastTsNs := nowNs;
        return;
      }
      var interval := nowNs - lastTsNs;
      lastTsNs := nowNs;
      if interval <= 0 {
        return;
      }
      ExtremesAppend(MIN_START, xs, interval);
      ExtremesAppend(0, xs, interval);

      count, mean, m2 := Observe(count, mean, m2, interval, xs);
      min := Min(min, interval);
      max := Max(max, interval);

      TrackBudget(interval, xs);
    }

    method TrackBudget(interval: int, ghost xs: seq<int>)
      requires BudgetTracked(frameBudgetNs, missedFrames, currentMissStreak, maxMissStreak,
                             pacingErrorSum, maxPacingError, xs)
      modifies this`missedFrames, this`currentMissStreak, this`maxMissStreak
      modifies this`pacingErrorSum, this`maxPacingError
      ensures BudgetTracked(frameBudgetNs, missedFrames, currentMissStreak, maxMissStreak,
                            pacingErrorSum, maxPacingError, xs + [interval])
    {
      hide TrailingMissedRun, LongestMissedRun, CountOver, Errors, Sum, MaxOf;
      if frameBudgetNs != 0 {
        StreakStep(xs, frameBudgetNs, currentMissStreak, maxMissStreak, interval);
        BudgetAppend(xs, frameBudgetNs, interval);
        if interval > frameBudgetNs {
          missedFrames := missedFrames + 1;
          currentMissStreak := currentMissStreak + 1;
          maxMissStreak := Max(maxMissStreak, currentMissStreak);
        } else {
          currentMissStreak := 0;
        }
        var absError := Abs(interval - frameBudgetNs);
        pacingErrorSum := pacingErrorSum + absError;
        maxPacingError := Max(maxPacingError, absError);
      }
    }
  }

  // ---------------------------------------------------------------------
  // present_smoothness.py
  // ---------------------------------------------------------------------

  const MIN_BOUNDARY_NS := 100_000_000

  datatype Present = Present(nowNs: int, periodNs: int)

  /** How one present is accounted, given the timestamp before it (0 if there is none). */
  datatype Kind = BadPeriod | Baseline | NonPositive | Boundary | Active(interval: int, periodNs: int)

  function Classify(last: int, p: Present): Kind {
    if p.periodNs <= 0 then BadPeriod
    else if last == 0 then Baseline
    else if p.nowNs - last <= 0 then NonPositive
    else if p.nowNs - last > Max(3 * p.periodNs, MIN_BOUNDARY_NS) then Boundary
    else Active(p.nowNs - last, p.periodNs)
  }

  /** The last timestamp seen with a valid period, 0 before the first. */
  function LastPresent(log: seq<Present>): int {
    if log == [] then 0
    else if log[|log| - 1].periodNs <= 0 then LastPresent(log[..|log| - 1])
    else log[|log| - 1].nowNs
  }

  function Kinds(log: seq<Present>): seq<Kind> {
    if log == [] then []
    else
      var init := log[..|log| - 1];
      Kinds(init) + [Classify(LastPresent(init), log[|log| - 1])]
  }

  function CountKind(ks: seq<Kind>, counted: Kind -> bool): nat {
    if ks == [] then 0
    else CountKind(ks[..|ks| - 1], counted) + if counted(ks[|ks| - 1]) then 1 else 0
  }

  function ActiveIntervals(ks: seq<Kind>): seq<int> {
    if ks == [] then []
    else
      var init, k := ActiveIntervals(ks[..|ks| - 1]), ks[|ks| - 1];
      if k.Active? then init + [k.interval] else init
  }

  predicate IsBaseline(k: Kind) { k.Baseline? }
  predicate IsBoundary(k: Kind) { k.Boundary? }
  predicate IsNonPositive(k: Kind) { k.NonPositive? }
  predicate IsBadPeriod(k: Kind) { k.BadPeriod? }
  predicate IsHitch(k: Kind) { k.Active? && k.interval > 2 * k.periodNs }

  lemma PresentAppend(log: seq<Present>, p: Present, counted: Kind -> bool)
    ensures var k := Classify(LastPresent(log), p);
            && LastPresent(log + [p]) == (if p.periodNs <= 0 then LastPresent(log) else p.nowNs)
            && Kinds(log + [p]) == Kinds(log) + [k]
            && CountKind(Kinds(log + [p]), counted) == CountKind(Kinds(log), counted) + (if counted(k) then 1 else 0)
            && ActiveIntervals(Kinds(log + [p])) ==
                 (if k.Active? then ActiveIntervals(Kinds(log)) + [k.interval] else ActiveIntervals(Kinds(log)))
  {}

  class PresentSmoothnessStat {
    var count: nat
    var presents: nat
    var boundaries: nat
    var hitches: nat
    var badSamples: nat
    var activeTimeNs: int
    var min: int
    var max: int
    var mean: real
    var m2: real
    var samples: seq<int>
    var lastTsNs: int
    ghost var log: seq<Present>

    ghost predicate Valid()
      reads this
    {
      var ks := Kinds(log);
      var xs := ActiveIntervals(ks);
      && Describes(count, mean, m2, xs)
      && min == MinOf(MIN_START, xs) && max == MaxOf(0, xs)
      && activeTimeNs == Sum(xs)
      && samples == LastOf(xs, WINDOW)
      && lastTsNs == LastPresent(log)
      && boundaries == CountKind(ks, IsBoundary)
      && hitches == CountKind(ks, IsHitch)
      && presents == |log| - CountKind(ks, IsBadPeriod)
      && badSamples == CountKind(ks, IsBadPeriod) + CountKind(ks, IsNonPositive)
    }

    constructor ()
      ensures Valid() && log == []
    {
      count, presents, boundaries, hitches, badSamples := 0, 0, 0, 0, 0;
      activeTimeNs, min, max, mean, m2 := 0, MIN_START, 0, 0.0, 0.0;
      samples, lastTsNs := [], 0;
      log := [];
    }

    method ObservePresent(nowNs: int, periodNs: int)
      requires Valid()
      modifies this
      ensures Valid() && log == old(log) + [Present(nowNs, periodNs)]
    {
      hide Describes, Kinds, CountKind, ActiveIntervals, LastPresent, Sum, MinOf, MaxOf, LastOf, DequeAppend;
      var p := Present(nowNs, periodNs);
      ghost var xs := ActiveIntervals(Kinds(log));
      PresentAppend(log, p, IsBoundary);
      PresentAppend(log, p, IsHitch);
      PresentAppend(log, p, IsBadPeriod);
      PresentAppend(log, p, IsNonPositive);
      log := log + [p];

      if periodNs <= 0 {
        badSamples := badSamples + 1;
        return;
      }
      presents := presents + 1;
      if lastTsNs == 0 {
        lastTsNs := nowNs;
        return;
      }
      var interval := nowNs - lastTsNs;
      lastTsNs := nowNs;
      if interval <= 0 {
        badSamples := badSamples + 1;
        return;
      }
      if interval > Max(3 * periodNs, MIN_BOUNDARY_NS) {
        boundaries := boundaries + 1;
        return;
      }
      ObserveActive(interval, xs);
      if interval > 2 * periodNs {
        hitches := hitches + 1;
      }
    }

    /** What to_dict reads off the window of the last 512 active intervals. */
    method Percentiles() returns (p50: int, p95: int, p99: int)
      requires Valid()
      ensures ArePercentiles(LastOf(ActiveIntervals(Kinds(log)), 512), p50, p95, p99)
      ensures p50 <= p95 <= p99
    {
      p50, p95, p99 := ReadPercentiles(samples);
    }

    method ObserveActive(interval: int, ghost xs: seq<int>)
      requires Describes(count, mean, m2, xs)
      requires min == MinOf(MIN_START, xs) && max == MaxOf(0, xs)
      requires activeTimeNs == Sum(xs) && samples == LastOf(xs, WINDOW)
      modifies this`count, this`mean, this`m2, this`min, this`max, this`activeTimeNs, this`samples
      ensures Describes(count, mean, m2, xs + [interval])
      ensures min == MinOf(MIN_START, xs + [interval]) && max == MaxOf(0, xs + [interval])
      ensures activeTimeNs == Sum(xs + [interval]) && samples == LastOf(xs + [interval], WINDOW)
    {
      hide Describes, Sum, MinOf, MaxOf, LastOf, DequeAppend;
      SumAppend(xs, interval);
      ExtremesAppend(MIN_START, xs, interval);
      ExtremesAppend(0, xs, interval);
      WindowStep(xs, interval);
      count, mean, m2 := Observe(count, mean, m2, interval, xs);
      activeTimeNs := activeTimeNs + interval;
      min := Min(min, interval);
      max := Max(max, interval);
      samples := DequeAppend(samples, interval);
    }
  }

  // ---------------------------------------------------------------------
  // Whole-run accounting of presents
  // ---------------------------------------------------------------------

  /** Every present is counted in exactly one place. */
  lemma {:induction false} EveryPresentAccounted(log: seq<Present>)
    ensures var ks := Kinds(log);
            |log| == CountKind(ks, IsBadPeriod) + CountKind(ks, IsBaseline) + CountKind(ks, IsNonPositive)
                     + CountKind(ks, IsBoundary) + |ActiveIntervals(ks)|
  {
    if log == [] {
    } else {
      var init, p := log[..|log| - 1], log[|log| - 1];
      assert log == init + [p];
      EveryPresentAccounted(init);
      PresentAppend(init, p, IsBadPeriod);
      PresentAppend(init, p, IsBaseline);
      PresentAppend(init, p, IsNonPositive);
      PresentAppend(init, p, IsBoundary);
    }
  }

  /**
   How present i is accounted, by inequalities over its period and its gap to the last valid
   timestamp before it, where 0 stands for none.
   */
  lemma {:induction false} KindOfPresent(log: seq<Present>, i: nat)
    requires i < |log|
    ensures |Kinds(log)| == |log|
    ensures var k, last := Kinds(log)[i], LastPresent(log[..i]);
            var period, gap := log[i].periodNs, log[i].nowNs - last;
            && (k.BadPeriod? <==> period <= 0)
            && (k.Baseline? <==> period > 0 && last == 0)
            && (k.NonPositive? <==> period > 0 && last != 0 && gap <= 0)
            && (k.Boundary? <==> period > 0 && last != 0 && gap > 3 * period && gap > 100_000_000)
            && (k.Active? <==> period > 0 && last != 0 && gap > 0 && (gap <= 3 * period || gap <= 100_000_000))
            && (k.Active? ==> k == Active(gap, period))
            && (IsHitch(k) <==> k.Active? && gap > 2 * period)
  {
    var init := log[..|log| - 1];
    if i == |log| - 1 {
      KindsLength(init);
    } else {
      KindOfPresent(init, i);
      assert init[..i] == log[..i];
    }
  }

  lemma {:induction false} KindsLength(log: seq<Present>)
    ensures |Kinds(log)| == |log|
  {
    if log == [] {
    } else {
      KindsLength(log[..|log| - 1]);
    }
  }

  /** The active intervals are the gaps of the active presents, in order. */
  lemma {:induction false} ActiveIntervalsKeep(ks: seq<Kind>, keep: Kind -> bool, active: seq<Kind>)
    requires forall k :: keep(k) <==> k.Active?
    requires Keeps(ks, keep, active)
    ensures |ActiveIntervals(ks)| == |active|
    ensures forall i :: 0 <= i < |active| ==> active[i].Active? && ActiveIntervals(ks)[i] == active[i].interval
  {
    if ks == [] {
    } else {
      var init, k := ks[..|ks| - 1], ks[|ks| - 1];
      assert init + [k] == ks;
      KeepsInit(init, k, keep, active);
      ActiveIntervalsKeep(init, keep, if keep(k) then active[..|active| - 1] else active);
    }
  }

  ghost predicate NoZeroTimestamps(log: seq<Present>) {
    forall i :: 0 <= i < |log| ==> log[i].nowNs != 0
  }

  /** The timestamps of the presents with a valid period. */
  function ValidTimes(log: seq<Present>): seq<int> {
    if log == [] then []
    else
      var init, p := ValidTimes(log[..|log| - 1]), log[|log| - 1];
      if p.periodNs <= 0 then init else init + [p.nowNs]
  }

  /** How many of them have no timestamp before them, or the 0 that stands for none. */
  function Starts(times: seq<int>): nat {
    if times == [] then 0
    else
      var before := times[..|times| - 1];
      Starts(before) + if before == [] || before[|before| - 1] == 0 then 1 else 0
  }

  lemma {:induction false} NonzeroStartsOnce(times: seq<int>)
    requires forall i :: 0 <= i < |times| ==> times[i] != 0
    ensures Starts(times) == if times == [] then 0 else 1
  {
    if times == [] {
    } else {
      NonzeroStartsOnce(times[..|times| - 1]);
    }
  }

  lemma {:induction false} ValidTimesFacts(log: seq<Present>)
    ensures LastPresent(log) == if ValidTimes(log) == [] then 0 else ValidTimes(log)[|ValidTimes(log)| - 1]
    ensures |ValidTimes(log)| + CountKind(Kinds(log), IsBadPeriod) == |log|
    ensures NoZeroTimestamps(log) ==> forall i :: 0 <= i < |ValidTimes(log)| ==> ValidTimes(log)[i] != 0
  {
    if log == [] {
    } else {
      var init, p := log[..|log| - 1], log[|log| - 1];
      assert log == init + [p];
      ValidTimesFacts(init);
      PresentAppend(init, p, IsBadPeriod);
    }
  }

  lemma StartsAppend(times: seq<int>, t: int)
    ensures Starts(times + [t]) ==
            Starts(times) + if times == [] || times[|times| - 1] == 0 then 1 else 0
  {
    assert (times + [t])[..|times|] == times;
  }

  /** A baseline is taken once for each valid present without a nonzero timestamp before it. */
  lemma {:induction false} BaselinesAreStarts(log: seq<Present>)
    ensures CountKind(Kinds(log), IsBaseline) == Starts(ValidTimes(log))
  {
    if log == [] {
    } else {
      var init, p := log[..|log| - 1], log[|log| - 1];
      assert log == init + [p];
      BaselinesAreStarts(init);
      ValidTimesFacts(init);
      PresentAppend(init, p, IsBaseline);
      StartsAppend(ValidTimes(init), p.nowNs);
    }
  }

  /** With nonzero timestamps there is one baseline, once any present with a valid period is seen. */
  lemma OneBaseline(log: seq<Present>)
    requires NoZeroTimestamps(log)
    ensures CountKind(Kinds(log), IsBaseline) == if LastPresent(log) == 0 then 0 else 1
    ensures LastPresent(log) == 0 <==> CountKind(Kinds(log), IsBadPeriod) == |log|
  {
    BaselinesAreStarts(log);
    ValidTimesFacts(log);
    NonzeroStartsOnce(ValidTimes(log));
  }

  /**
   The published counters add up over any run: presents are the baselines, the active intervals,
   the idle boundaries and the nonpositive intervals; with nonzero timestamps one baseline.
   */
  lemma PresentsAddUp(log: seq<Present>)
    ensures var ks := Kinds(log);
            var presents := |log| - CountKind(ks, IsBadPeriod);
            && presents == |ValidTimes(log)|
            && presents == Starts(ValidTimes(log)) + |ActiveIntervals(ks)|
                           + CountKind(ks, IsBoundary) + CountKind(ks, IsNonPositive)
            && (NoZeroTimestamps(log) ==> Starts(ValidTimes(log)) == if presents == 0 then 0 else 1)
  {
    EveryPresentAccounted(log);
    BaselinesAreStarts(log);
    ValidTimesFacts(log);
    if NoZeroTimestamps(log) {
      NonzeroStartsOnce(ValidTimes(log));
    }
  }
}
