/**
 The race-pace filter of apps/web/session_discovery.py: lap 1, invalid, safety-car and pit laps
 go, then laps slower than 1.2 times the median of the rest.
 */
module CleanLaps {
  import opened Common
  import Stats = Welford

  /** One lap of the history; `valid` is lap-valid-bit-flags == 15. */
  datatype Lap = Lap(valid: bool, timeMs: int)

  /** Every stint but the last ends in the pits: its last lap and the lap after it. */
  function PitLaps(stintEnds: seq<int>): set<int> {
    if |stintEnds| < 2 then {}
    else PitLaps(stintEnds[1..]) + {stintEnds[0], stintEnds[0] + 1}
  }

  predicate Racing(laps: seq<Lap>, i: nat, pits: set<int>, safetyCar: set<int>)
    requires i < |laps|
  {
    i >= 1 && laps[i].valid && laps[i].timeMs > 0 && i + 1 !in safetyCar && i + 1 !in pits
  }

  /** The times of the racing laps among the first n; lap i has number i + 1. */
  function RacingTimes(laps: seq<Lap>, n: nat, pits: set<int>, safetyCar: set<int>): seq<int>
    requires n <= |laps|
  {
    if n == 0 then []
    else
      var init := RacingTimes(laps, n - 1, pits, safetyCar);
      if Racing(laps, n - 1, pits, safetyCar) then init + [laps[n - 1].timeMs] else init
  }

  function Median(times: seq<int>): int
    requires times != []
  {
    Stats.Sorted(times)[|times| / 2]
  }

  predicate WithinMedian(t: int, median: int) {
    t as real <= median as real * 1.2
  }

  function KeepWithin(times: seq<int>, median: int): seq<int> {
    if times == [] then []
    else
      var init, t := KeepWithin(times[..|times| - 1], median), times[|times| - 1];
      if WithinMedian(t, median) then init + [t] else init
  }

  /** With fewer than three laps there is no outlier test. */
  function CleanTimes(times: seq<int>): seq<int> {
    if |times| < 3 then times else KeepWithin(times, Median(times))
  }

  method GetCleanRaceLaps(laps: seq<Lap>, stintEnds: seq<int>, safetyCar: set<int>) returns (out: seq<int>)
    ensures out == CleanTimes(RacingTimes(laps, |laps|, PitLaps(stintEnds), safetyCar))
  {
    var pits := PitLaps(stintEnds);
    var clean: seq<int> := [];
    for i := 0 to |laps|
      invariant clean == RacingTimes(laps, i, pits, safetyCar)
    {
      if i >= 1 && laps[i].valid && laps[i].timeMs > 0 && i + 1 !in safetyCar && i + 1 !in pits {
        clean := clean + [laps[i].timeMs];
      }
    }
    if |clean| < 3 {
      return clean;
    }
    var median := Median(clean);
    out := [];
    for i := 0 to |clean|
      invariant out == KeepWithin(clean[..i], median)
    {
      assert clean[..i + 1][..i] == clean[..i];
      if WithinMedian(clean[i], median) {
        out := out + [clean[i]];
      }
    }
    assert clean[..|clean|] == clean;
  }

  /** The last lap of every stint but the last, and the lap after it. */
  lemma {:induction false} PitLapsAre(stintEnds: seq<int>, lap: int)
    ensures lap in PitLaps(stintEnds) <==>
            exists i :: 0 <= i < |stintEnds| - 1 && (lap == stintEnds[i] || lap == stintEnds[i] + 1)
  {
    if |stintEnds| < 2 {
    } else {
      var rest := stintEnds[1..];
      PitLapsAre(rest, lap);
      if i :| 0 <= i < |stintEnds| - 1 && (lap == stintEnds[i] || lap == stintEnds[i] + 1) {
        assert i > 0 ==> rest[i - 1] == stintEnds[i];
      }
      if i :| 0 <= i < |rest| - 1 && (lap == rest[i] || lap == rest[i] + 1) {
        assert stintEnds[i + 1] == rest[i];
      }
    }
  }

  function Positions(n: nat): (ps: seq<int>)
    ensures |ps| == n && forall i :: 0 <= i < n ==> ps[i] == i
  {
    seq(n, i => i)
  }

  /** The racing times are those of exactly the laps that pass every test, in order. */
  lemma {:induction false} RacingTimesAre(laps: seq<Lap>, n: nat, pits: set<int>, safetyCar: set<int>,
                                          keep: int -> bool) returns (kept: seq<int>)
    requires n <= |laps|
    requires forall i :: keep(i) <==>
               1 <= i < |laps| && laps[i].valid && laps[i].timeMs > 0 && i + 1 !in safetyCar && i + 1 !in pits
    ensures Keeps(Positions(n), keep, kept)
    ensures var times := RacingTimes(laps, n, pits, safetyCar);
            && |times| == |kept|
            && forall i :: 0 <= i < |kept| ==> 0 <= kept[i] < n && times[i] == laps[kept[i]].timeMs
  {
    if n == 0 {
      kept := [];
      assert Positions(0) == [];
    } else {
      kept := RacingTimesAre(laps, n - 1, pits, safetyCar, keep);
      KeepsStep(Positions(n - 1), keep, kept, n - 1);
      assert Positions(n - 1) + [n - 1] == Positions(n);
      kept := if keep(n - 1) then kept + [n - 1] else kept;
    }
  }

  lemma {:induction false} KeepWithinKeeps(times: seq<int>, median: int, keep: int -> bool)
    requires forall t :: keep(t) <==> t as real <= median as real * 1.2
    ensures Keeps(times, keep, KeepWithin(times, median))
  {
    if times == [] {
    } else {
      var init, t := times[..|times| - 1], times[|times| - 1];
      KeepWithinKeeps(init, median, keep);
      KeepsStep(init, keep, KeepWithin(init, median), t);
      assert init + [t] == times;
    }
  }

  /**
   Of three racing times or more exactly those within 1.2 times the median stay, in order, where
   the median has as many times below it as half of them; of fewer, all.
   */
  lemma CleanTimesAre(times: seq<int>, median: int, keep: int -> bool)
    requires |times| >= 3 ==> Stats.HasRank(times, |times| / 2, median)
    requires forall t :: keep(t) <==> |times| < 3 || t as real <= median as real * 1.2
    ensures Keeps(times, keep, CleanTimes(times))
  {
    if |times| < 3 {
      KeepsAll(times, keep);
    } else {
      Stats.SortedPicksRank(times, |times| / 2, median);
      KeepWithinKeeps(times, median, keep);
    }
  }

  lemma {:induction false} KeepsAll(xs: seq<int>, keep: int -> bool)
    requires forall x: int :: keep(x)
    ensures Keeps(xs, keep, xs)
  {
    if xs == [] {
    } else {
      var init, x := xs[..|xs| - 1], xs[|xs| - 1];
      KeepsAll(init, keep);
      KeepsStep(init, keep, init, x);
      assert init + [x] == xs;
    }
  }

  lemma {:induction false} RacingTimesPositive(laps: seq<Lap>, n: nat, pits: set<int>, safetyCar: set<int>)
    requires n <= |laps|
    ensures forall i :: 0 <= i < |RacingTimes(laps, n, pits, safetyCar)| ==>
              RacingTimes(laps, n, pits, safetyCar)[i] > 0
  {
    if n == 0 {
    } else {
      RacingTimesPositive(laps, n - 1, pits, safetyCar);
    }
  }

  /** The laps kept are at least those not slower than the median. */
  lemma {:induction false} KeptCount(times: seq<int>, median: int)
    requires median >= 0
    ensures |KeepWithin(times, median)| >= Stats.CountBelow(times, median + 1)
  {
    if times == [] {
    } else {
      var init, t := times[..|times| - 1], times[|times| - 1];
      KeptCount(init, median);
      Stats.CountBelowAppend(init, t, median + 1);
      assert init + [t] == times;
    }
  }

  /**
   The outlier test always keeps more than half of the racing laps, so a driver with racing laps
   always gets a race pace.
   */
  lemma MoreThanHalfKept(laps: seq<Lap>, pits: set<int>, safetyCar: set<int>)
    ensures var times := RacingTimes(laps, |laps|, pits, safetyCar);
            && (|times| > 0 ==> |CleanTimes(times)| > |times| / 2)
            && (CleanTimes(times) == [] <==> times == [])
  {
    var times := RacingTimes(laps, |laps|, pits, safetyCar);
    if |times| >= 3 {
      var k := |times| / 2;
      RacingTimesPositive(laps, |laps|, pits, safetyCar);
      Stats.SortedHasRank(times, k);
      var i :| 0 <= i < |times| && times[i] == Median(times);
      KeptCount(times, Median(times));
    }
  }
}
