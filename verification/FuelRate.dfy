/**
 The fuel rate recommender of lib/fuel_rate_recommender.py, with fuel levels as reals.  The
 published fields are a function of the history, the lap count and the minimum fuel.
 */
module FuelRate {
  import opened Common
  import opened Sorting

  datatype Entry = Entry(lapNumber: int, fuelRemaining: real, isRacing: bool)

  /** Everything the recommender publishes. */
  datatype Published = Published(currRate: Option<real>, targetRate: Option<real>, nextLapUsage: Option<real>,
                                 surplusLaps: Option<real>, usedLastLap: Option<real>, finalFuel: Option<real>)

  const NOTHING := Published(None, None, None, None, None, None)

  function Racing(history: seq<Entry>): seq<Entry> {
    if history == [] then []
    else
      var init, e := Racing(history[..|history| - 1]), history[|history| - 1];
      if e.isRacing then init + [e] else init
  }

  /** Exactly the racing entries, in the order of the history. */
  lemma {:induction false} RacingKeeps(history: seq<Entry>, keep: Entry -> bool)
    requires forall e :: keep(e) <==> e.isRacing
    ensures Keeps(history, keep, Racing(history))
  {
    if history == [] {
    } else {
      var init, e := history[..|history| - 1], history[|history| - 1];
      RacingKeeps(init, keep);
      KeepsStep(init, keep, Racing(init), e);
      assert init + [e] == history;
    }
  }

  function LapOf(e: Entry): int {
    e.lapNumber
  }

  function SortByLap(es: seq<Entry>): seq<Entry> {
    SortBy(LapOf, es)
  }

  /** The racing laps the rate is computed from: the same laps, in lap order, ties as they came. */
  lemma SortedLaps(es: seq<Entry>)
    ensures SortedBy(LapOf, SortByLap(es))
    ensures multiset(SortByLap(es)) == multiset(es)
    ensures forall lap :: WithKey(LapOf, lap, SortByLap(es)) == WithKey(LapOf, lap, es)
  {
    SortIsSorted(LapOf, es);
    SortKeepsEntries(LapOf, es);
    forall lap
      ensures WithKey(LapOf, lap, SortByLap(es)) == WithKey(LapOf, lap, es)
    {
      SortIsStable(LapOf, lap, es);
    }
  }

  // ---------------------------------------------------------------------
  // The racing rate
  // ---------------------------------------------------------------------

  /** Fuel used over the pairs of neighbours whose lap numbers follow each other, and their number. */
  function PairFuel(es: seq<Entry>): real {
    if |es| < 2 then 0.0
    else
      var a, b := es[|es| - 2], es[|es| - 1];
      PairFuel(es[..|es| - 1]) + if b.lapNumber == a.lapNumber + 1 then a.fuelRemaining - b.fuelRemaining else 0.0
  }

  function PairCount(es: seq<Entry>): nat {
    if |es| < 2 then 0
    else PairCount(es[..|es| - 1]) + if es[|es| - 1].lapNumber == es[|es| - 2].lapNumber + 1 then 1 else 0
  }

  function RacingRate(es: seq<Entry>): Option<real> {
    if PairCount(es) == 0 then None else Some(PairFuel(es) / PairCount(es) as real)
  }

  /** Cut a lap list into its maximal stretches of consecutive laps. */
  function Stretches(es: seq<Entry>): (rs: seq<seq<Entry>>)
    ensures forall i :: 0 <= i < |rs| ==> rs[i] != []
    ensures es != [] ==> rs != []
  {
    if es == [] then []
    else
      var rs, e := Stretches(es[..|es| - 1]), es[|es| - 1];
      if |es| > 1 && e.lapNumber == es[|es| - 2].lapNumber + 1 then
        rs[..|rs| - 1] + [rs[|rs| - 1] + [e]]
      else rs + [[e]]
  }

  predicate ConsecutiveLaps(run: seq<Entry>) {
    forall i :: 0 <= i < |run| - 1 ==> run[i + 1].lapNumber == run[i].lapNumber + 1
  }

  function Concat(rs: seq<seq<Entry>>): seq<Entry> {
    if rs == [] then [] else Concat(rs[..|rs| - 1]) + rs[|rs| - 1]
  }

  /** Neighbouring stretches do not continue each other, so no stretch can be longer. */
  predicate Maximal(rs: seq<seq<Entry>>)
    requires forall i :: 0 <= i < |rs| ==> rs[i] != []
  {
    forall i :: 0 <= i < |rs| - 1 ==> rs[i + 1][0].lapNumber != rs[i][|rs[i]| - 1].lapNumber + 1
  }

  /** First minus last fuel level of every stretch, and laps driven within stretches. */
  function StretchFuel(rs: seq<seq<Entry>>): real
    requires forall i :: 0 <= i < |rs| ==> rs[i] != []
  {
    if rs == [] then 0.0
    else
      var run := rs[|rs| - 1];
      StretchFuel(rs[..|rs| - 1]) + run[0].fuelRemaining - run[|run| - 1].fuelRemaining
  }

  function StretchLaps(rs: seq<seq<Entry>>): nat
    requires forall i :: 0 <= i < |rs| ==> rs[i] != []
  {
    if rs == [] then 0 else StretchLaps(rs[..|rs| - 1]) + |rs[|rs| - 1]| - 1
  }

  /** rs is the list es cut into its maximal stretches of consecutive laps. */
  ghost predicate IsCutOf(es: seq<Entry>, rs: seq<seq<Entry>>) {
    && (forall i :: 0 <= i < |rs| ==> rs[i] != [])
    && Concat(rs) == es
    && (forall i :: 0 <= i < |rs| ==> ConsecutiveLaps(rs[i]))
    && Maximal(rs)
    && (es == [] <==> rs == [])
    && (es != [] ==> rs[|rs| - 1][|rs[|rs| - 1]| - 1] == es[|es| - 1])
  }

  ghost predicate SameSums(es: seq<Entry>, rs: seq<seq<Entry>>)
    requires forall i :: 0 <= i < |rs| ==> rs[i] != []
  {
    PairFuel(es) == StretchFuel(rs) && PairCount(es) == StretchLaps(rs)
  }

  lemma ExtendLast(es: seq<Entry>, rs: seq<seq<Entry>>, e: Entry)
    requires es != [] && IsCutOf(es, rs)
    requires e.lapNumber == es[|es| - 1].lapNumber + 1
    ensures IsCutOf(es + [e], rs[..|rs| - 1] + [rs[|rs| - 1] + [e]])
  {}

  lemma ExtendLastSums(es: seq<Entry>, rs: seq<seq<Entry>>, e: Entry)
    requires es != [] && IsCutOf(es, rs) && SameSums(es, rs)
    requires e.lapNumber == es[|es| - 1].lapNumber + 1
    ensures var rs' := rs[..|rs| - 1] + [rs[|rs| - 1] + [e]];
            && (forall i :: 0 <= i < |rs'| ==> rs'[i] != [])
            && SameSums(es + [e], rs')
  {
    hide Concat, Maximal, ConsecutiveLaps;
    var init, run := rs[..|rs| - 1], rs[|rs| - 1];
    var rs' := init + [run + [e]];
    assert rs'[..|rs'| - 1] == init;
    assert (es + [e])[..|es|] == es;
    assert (run + [e])[0] == run[0];
  }

  lemma AddStretch(es: seq<Entry>, rs: seq<seq<Entry>>, e: Entry)
    requires IsCutOf(es, rs)
    requires es != [] ==> e.lapNumber != es[|es| - 1].lapNumber + 1
    ensures IsCutOf(es + [e], rs + [[e]])
  {
    var rs' := rs + [[e]];
    assert rs'[..|rs|] == rs;
    assert Concat(rs') == es + [e];
    assert Maximal(rs') by {
      forall i | 0 <= i < |rs'| - 1
        ensures rs'[i + 1][0].lapNumber != rs'[i][|rs'[i]| - 1].lapNumber + 1
      {
        if i < |rs| - 1 {
          assert rs'[i] == rs[i] && rs'[i + 1] == rs[i + 1];
        }
      }
    }
  }

  lemma AddStretchSums(es: seq<Entry>, rs: seq<seq<Entry>>, e: Entry)
    requires (forall i :: 0 <= i < |rs| ==> rs[i] != []) && SameSums(es, rs)
    requires es != [] ==> e.lapNumber != es[|es| - 1].lapNumber + 1
    ensures forall i :: 0 <= i < |rs + [[e]]| ==> (rs + [[e]])[i] != []
    ensures SameSums(es + [e], rs + [[e]])
  {
    assert (rs + [[e]])[..|rs|] == rs;
    assert (es + [e])[..|es|] == es;
  }

  lemma StretchesStep(es: seq<Entry>, e: Entry)
    ensures Stretches(es + [e]) ==
            if es != [] && e.lapNumber == es[|es| - 1].lapNumber + 1 then
              Stretches(es)[..|Stretches(es)| - 1] + [Stretches(es)[|Stretches(es)| - 1] + [e]]
            else Stretches(es) + [[e]]
  {
    assert (es + [e])[..|es|] == es;
  }

  lemma {:induction false} StretchesCut(es: seq<Entry>)
    ensures IsCutOf(es, Stretches(es))
  {
    if es == [] {
    } else {
      hide IsCutOf, Stretches;
      var init, e := es[..|es| - 1], es[|es| - 1];
      assert es == init + [e];
      StretchesCut(init);
      StretchesStep(init, e);
      if init != [] && e.lapNumber == init[|init| - 1].lapNumber + 1 {
        ExtendLast(init, Stretches(init), e);
      } else {
        AddStretch(init, Stretches(init), e);
      }
    }
  }

  /**
   The pairwise sums telescope: cut into maximal stretches of consecutive laps, the fuel counted
   is what each stretch used from its first to its last lap, over its laps less one.
   */
  lemma {:induction false} RateIsStretchAverage(es: seq<Entry>)
    ensures IsCutOf(es, Stretches(es)) && SameSums(es, Stretches(es))
  {
    StretchesCut(es);
    if es == [] {
    } else {
      hide IsCutOf, SameSums, Stretches;
      var init, e := es[..|es| - 1], es[|es| - 1];
      assert es == init + [e];
      RateIsStretchAverage(init);
      StretchesStep(init, e);
      if init != [] && e.lapNumber == init[|init| - 1].lapNumber + 1 {
        ExtendLastSums(init, Stretches(init), e);
      } else {
        AddStretchSums(init, Stretches(init), e);
      }
    }
  }

  /** The rate is defined exactly if some stretch has two laps: fuel used over laps driven in them. */
  lemma RateOverStretches(es: seq<Entry>)
    ensures RacingRate(es).Some? <==> StretchLaps(Stretches(es)) > 0
    ensures RacingRate(es).Some? ==>
              RacingRate(es).value * StretchLaps(Stretches(es)) as real == StretchFuel(Stretches(es))
  {
    RateIsStretchAverage(es);
    hide Stretches, StretchLaps, StretchFuel, PairFuel, PairCount;
    if PairCount(es) > 0 {
      var n := PairCount(es) as real;
      assert PairFuel(es) / n * n == PairFuel(es);
    }
  }

  /** On laps without a break it is the first fuel level minus the last, over the laps less one. */
  lemma RateOfConsecutiveLaps(es: seq<Entry>)
    requires |es| >= 2 && ConsecutiveLaps(es)
    ensures RacingRate(es).Some?
    ensures RacingRate(es).value * (|es| - 1) as real == es[0].fuelRemaining - es[|es| - 1].fuelRemaining
  {
    ConsecutivePairs(es);
    var n := (|es| - 1) as real;
    assert PairFuel(es) / n * n == PairFuel(es);
  }

  lemma {:induction false} ConsecutivePairs(es: seq<Entry>)
    requires es != [] && ConsecutiveLaps(es)
    ensures PairCount(es) == |es| - 1
    ensures PairFuel(es) == es[0].fuelRemaining - es[|es| - 1].fuelRemaining
  {
    if |es| == 1 {
    } else {
      assert es[|es| - 2 + 1].lapNumber == es[|es| - 2].lapNumber + 1;
      ConsecutivePairs(es[..|es| - 1]);
    }
  }

  // ---------------------------------------------------------------------
  // Targets and predictions
  // ---------------------------------------------------------------------

  predicate Sufficient(history: seq<Entry>, totalLaps: Option<int>) {
    |Racing(history)| >= 2 && totalLaps.Some?
  }

  /** The fields that need laps left to drive, added to what is already known. */
  function Targets(p: Published, fuel: real, left: int, minFuel: real): Published
    requires left > 0
  {
    var target := (fuel - minFuel) / left as real;
    var rate := p.currRate;
    p.(targetRate := Some(target),
       nextLapUsage := Some(if rate.Some? then target - (rate.value - target) * 0.5 else target),
       surplusLaps := if rate.Some? && rate.value > 0.0 then Some((fuel - minFuel) / rate.value - left as real)
                      else p.surplusLaps)
  }

  /** The fuel left if every remaining lap is a racing lap. */
  function Predict(fuel: real, left: int, rate: real): real {
    fuel - left as real * rate
  }

  /** What every recompute publishes. */
  function Publish(history: seq<Entry>, totalLaps: Option<int>, minFuel: real): Published {
    if !Sufficient(history, totalLaps) then NOTHING
    else
      RacingIsPart(history);
      var last := history[|history| - 1];
      var fuel, left := last.fuelRemaining, totalLaps.value - last.lapNumber;
      var rate := RacingRate(SortByLap(Racing(history)));
      var used := history[|history| - 2].fuelRemaining - last.fuelRemaining;
      var known := NOTHING.(usedLastLap := Some(used), currRate := rate);
      var aimed := if left > 0 then Targets(known, fuel, left, minFuel) else known;
      if rate.Some? then aimed.(finalFuel := Some(Predict(fuel, left, rate.value))) else aimed
  }

  lemma {:induction false} RacingIsPart(history: seq<Entry>)
    ensures |Racing(history)| <= |history|
  {
    if history == [] {
    } else {
      RacingIsPart(history[..|history| - 1]);
    }
  }

  /**
   What the three target fields mean: driving the remaining laps at the target rate ends on the
   minimum fuel; the next lap corrects by half of the rate's deviation from the target; and the
   laps left plus the surplus, at the racing rate, end on the minimum fuel.
   */
  lemma TargetsMeetMinimum(p: Published, fuel: real, left: int, minFuel: real)
    requires left > 0
    ensures var q := Targets(p, fuel, left, minFuel);
            && q.targetRate.Some? && fuel - left as real * q.targetRate.value == minFuel
            && q.nextLapUsage.Some?
            && (p.currRate.None? ==> q.nextLapUsage == q.targetRate)
            && (p.currRate.Some? ==>
                  q.targetRate.value - q.nextLapUsage.value == (p.currRate.value - q.targetRate.value) * 0.5)
            && (p.currRate.Some? && p.currRate.value > 0.0 ==>
                  && q.surplusLaps.Some?
                  && fuel - (left as real + q.surplusLaps.value) * p.currRate.value == minFuel)
            && (p.currRate.None? || p.currRate.value <= 0.0 ==> q.surplusLaps == p.surplusLaps)
  {
    var spare, n := fuel - minFuel, left as real;
    assert n * (spare / n) == spare;
    if p.currRate.Some? && p.currRate.value > 0.0 {
      var rate := p.currRate.value;
      assert spare / rate * rate == spare;
    }
  }

  /** When there is a surplus to speak of: enough data, a positive rate, and laps left to drive. */
  predicate HasSurplus(history: seq<Entry>, totalLaps: Option<int>) {
    && Sufficient(history, totalLaps)
    && (RacingIsPart(history); totalLaps.value - history[|history| - 1].lapNumber > 0)
    && RacingRate(SortByLap(Racing(history))).Some?
    && RacingRate(SortByLap(Racing(history))).value > 0.0
  }

  /**
   A surplus is published exactly in those cases, and then the numbers agree: the predicted
   final fuel is the minimum plus the surplus laps at the racing rate, so a surplus means a
   prediction above the minimum means a rate within target.
   */
  lemma SurplusMeansEnoughFuel(history: seq<Entry>, totalLaps: Option<int>, minFuel: real)
    ensures var p := Publish(history, totalLaps, minFuel);
            p.surplusLaps.Some? <==> HasSurplus(history, totalLaps)
    ensures var p := Publish(history, totalLaps, minFuel);
            p.surplusLaps.Some? ==>
              && p.currRate.Some? && p.targetRate.Some? && p.finalFuel.Some?
              && p.finalFuel.value == minFuel + p.surplusLaps.value * p.currRate.value
              && (p.surplusLaps.value >= 0.0 <==> p.finalFuel.value >= minFuel)
              && (p.surplusLaps.value >= 0.0 <==> p.currRate.value <= p.targetRate.value)
              && p.nextLapUsage.Some?
              && (p.surplusLaps.value >= 0.0 <==> p.nextLapUsage.value >= p.targetRate.value)
  {
    hide Racing, RacingRate, SortByLap;
    if Sufficient(history, totalLaps) {
      RacingIsPart(history);
      var last := history[|history| - 1];
      var fuel, left := last.fuelRemaining, totalLaps.value - last.lapNumber;
      var rate := RacingRate(SortByLap(Racing(history)));
      if left > 0 && rate.Some? && rate.value > 0.0 {
        SurplusAlgebra(fuel - minFuel, left as real, rate.value);
      }
    }
  }

  lemma SurplusAlgebra(spare: real, left: real, rate: real)
    requires left > 0.0 && rate > 0.0
    ensures var surplus := spare / rate - left;
            && spare - left * rate == surplus * rate
            && (surplus >= 0.0 <==> spare - left * rate >= 0.0)
            && (surplus >= 0.0 <==> rate <= spare / left)
  {
    var surplus, target := spare / rate - left, spare / left;
    assert spare / rate * rate == spare && target * left == spare;
    assert surplus * rate == spare / rate * rate - left * rate;
    SameSign(surplus, rate);
    assert (target - rate) * left == target * left - rate * left;
    SameSign(target - rate, left);
  }

  lemma SameSign(x: real, k: real)
    requires k > 0.0
    ensures x >= 0.0 <==> x * k >= 0.0
  {}

  /** What is known of the last lap and of the racing laps. */
  ghost predicate KnownFields(p: Published, history: seq<Entry>)
    requires |history| >= 2
  {
    var rs := Stretches(SortByLap(Racing(history)));
    && p.usedLastLap == Some(history[|history| - 2].fuelRemaining - history[|history| - 1].fuelRemaining)
    && (p.currRate.Some? <==> StretchLaps(rs) > 0)
    && (p.currRate.Some? ==> p.currRate.value * StretchLaps(rs) as real == StretchFuel(rs))
  }

  /**
   Every published field, for every input, by what it means: nothing without enough data; the fuel
   used on the last lap; the racing rate over the maximal stretches; the prediction that drives
   the remaining laps at that rate; and the targets, which need laps left to drive.
   */
  lemma PublishedFieldsMean(history: seq<Entry>, totalLaps: Option<int>, minFuel: real)
    ensures var p := Publish(history, totalLaps, minFuel);
            |Racing(history)| < 2 || totalLaps.None? ==> p == Published(None, None, None, None, None, None)
    ensures |Racing(history)| >= 2 && totalLaps.Some? ==>
              && |history| >= 2
              && var p, last := Publish(history, totalLaps, minFuel), history[|history| - 1];
                 var left := totalLaps.value - last.lapNumber;
                 && KnownFields(p, history)
                 && (p.finalFuel.Some? <==> p.currRate.Some?)
                 && (p.finalFuel.Some? ==> p.finalFuel.value == last.fuelRemaining - left as real * p.currRate.value)
                 && (p.targetRate.Some? <==> left > 0) && (p.nextLapUsage.Some? <==> left > 0)
                 && (p.surplusLaps.Some? <==> left > 0 && p.currRate.Some? && p.currRate.value > 0.0)
  {
    RacingIsPart(history);
    RateOverStretches(SortByLap(Racing(history)));
    hide Racing, RacingRate, SortByLap, Stretches, StretchLaps, StretchFuel;
  }

  // ---------------------------------------------------------------------
  // The recommender object
  // ---------------------------------------------------------------------

  function Without(history: seq<Entry>, laps: seq<int>): seq<Entry> {
    if history == [] then []
    else
      var init, e := Without(history[..|history| - 1], laps), history[|history| - 1];
      if e.lapNumber in laps then init else init + [e]
  }

  /** Exactly the entries of other laps stay, in order. */
  lemma {:induction false} WithoutKeeps(history: seq<Entry>, laps: seq<int>, keep: Entry -> bool)
    requires forall e :: keep(e) <==> e.lapNumber !in laps
    ensures Keeps(history, keep, Without(history, laps))
  {
    if history == [] {
    } else {
      var init, e := history[..|history| - 1], history[|history| - 1];
      WithoutKeeps(init, laps, keep);
      KeepsStep(init, keep, Without(init, laps), e);
      assert init + [e] == history;
    }
  }

  class FuelRateRecommender {
    var history: seq<Entry>
    var totalLaps: Option<int>
    const minFuel: real
    var published: Published

    /** Whatever calls led here, the published fields are those of the present inputs. */
    predicate Valid()
      reads this
    {
      published == Publish(history, totalLaps, minFuel)
    }

    constructor (history: seq<Entry>, totalLaps: Option<int>, minFuel: real)
      ensures Valid() && this.history == history && this.totalLaps == totalLaps && this.minFuel == minFuel
    {
      this.history, this.totalLaps, this.minFuel := history, totalLaps, minFuel;
      published := NOTHING;
      new;
      Recompute();
    }

    method Add(fuelRemaining: real, lapNumber: int, isRacing: bool)
      requires Valid()
      modifies this
      ensures Valid() && history == old(history) + [Entry(lapNumber, fuelRemaining, isRacing)]
      ensures totalLaps == old(totalLaps)
    {
      history := history + [Entry(lapNumber, fuelRemaining, isRacing)];
      Recompute();
    }

    method Remove(laps: seq<int>)
      requires Valid()
      modifies this
      ensures Valid() && history == Without(old(history), laps) && totalLaps == old(totalLaps)
    {
      history := Without(history, laps);
      Recompute();
    }

    method SetTotalLaps(value: Option<int>)
      requires Valid()
      modifies this
      ensures Valid() && totalLaps == value && history == old(history)
    {
      if value != totalLaps {
        totalLaps := value;
        Recompute();
      }
    }

    method Recompute()
      modifies this`published
      ensures Valid()
    {
      hide Racing, RacingRate, SortByLap;
      published := NOTHING;
      if !Sufficient(history, totalLaps) {
        return;
      }
      RacingIsPart(history);
      published := published.(usedLastLap :=
        Some(history[|history| - 2].fuelRemaining - history[|history| - 1].fuelRemaining));
      var rate := ComputeRacingRate(Racing(history));
      published := published.(currRate := rate);

      var currentFuel := history[|history| - 1].fuelRemaining;
      var lapsLeft := totalLaps.value - history[|history| - 1].lapNumber;
      if lapsLeft > 0 {
        ComputeTargetValues(currentFuel, lapsLeft);
      }
      if rate.Some? {
        published := published.(finalFuel := Some(Predict(currentFuel, lapsLeft, rate.value)));
      }
    }

    method ComputeTargetValues(currentFuel: real, lapsLeft: int)
      requires lapsLeft > 0
      modifies this`published
      ensures published == Targets(old(published), currentFuel, lapsLeft, minFuel)
      ensures published.targetRate.Some? && currentFuel - lapsLeft as real * published.targetRate.value == minFuel
      ensures published.currRate == old(published.currRate)
      ensures published.currRate.Some? && published.currRate.value > 0.0 ==>
                && published.surplusLaps.Some?
                && currentFuel - (lapsLeft as real + published.surplusLaps.value) * published.currRate.value == minFuel
      ensures published.nextLapUsage.Some?
              && published.targetRate.value - published.nextLapUsage.value ==
                 if published.currRate.None? then 0.0
                 else (published.currRate.value - published.targetRate.value) * 0.5
    {
      TargetsMeetMinimum(published, currentFuel, lapsLeft, minFuel);
      var rate := published.currRate;
      var target := (currentFuel - minFuel) / lapsLeft as real;
      published := published.(targetRate := Some(target));
      if rate.Some? && rate.value > 0.0 {
        var lapsAtCurrentRate := (currentFuel - minFuel) / rate.value;
        published := published.(surplusLaps := Some(lapsAtCurrentRate - lapsLeft as real));
      }
      if rate.Some? {
        published := published.(nextLapUsage := Some(target - (rate.value - target) * 0.5));
      } else {
        published := published.(nextLapUsage := Some(target));
      }
    }
  }

  /** The accumulating loop over neighbouring racing laps. */
  method ComputeRacingRate(racing: seq<Entry>) returns (rate: Option<real>)
    ensures rate == RacingRate(SortByLap(racing))
    ensures var rs := Stretches(SortByLap(racing));
            && (rate.Some? <==> StretchLaps(rs) > 0)
            && (rate.Some? ==> rate.value * StretchLaps(rs) as real == StretchFuel(rs))
  {
    RateOverStretches(SortByLap(racing));
    hide Stretches, StretchLaps, StretchFuel;
    var laps := SortByLap(racing);
    var used, pairs := 0.0, 0;
    var i := 1;
    while i < |laps|
      invariant 1 <= i
      invariant i <= |laps| || |laps| == 0
      invariant used == PairFuel(if |laps| == 0 then [] else laps[..i])
      invariant pairs == PairCount(if |laps| == 0 then [] else laps[..i])
    {
      assert laps[..i + 1][..i] == laps[..i];
      if laps[i].lapNumber == laps[i - 1].lapNumber + 1 {
        used := used + (laps[i - 1].fuelRemaining - laps[i].fuelRemaining);
        pairs := pairs + 1;
      }
      i := i + 1;
    }
    assert |laps| > 0 ==> laps[..i] == laps;
    rate := if pairs > 0 then Some(used / pairs as real) else None;
  }
}
