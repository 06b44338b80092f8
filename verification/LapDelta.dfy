/**
 The lap delta timeline of lib/delta/manager.py.

 The meaning of the store is given by the log of events it has seen: a lap holds exactly
 the points written on it that no later event has removed (`Survivors`).  The class below
 keeps its two dictionaries equal to that meaning, and everything the manager promises is
 then proved about `Survivors` and about the linear-scan reading `TimeAt` of a lap.
 */
module LapDelta {
  import opened Common

  datatype LapPoint = LapPoint(lapNum: int, distance: real, timeMs: int)

  datatype DeltaResult = DeltaResult(deltaMs: int, currPoint: LapPoint, bestLapNum: int,
                                     bestTimeMs: int, distance: real)

  /** One call that writes to the timeline; a flashback writes an anchor with time 0. */
  datatype Event =
    | Record(lap: int, distance: real, timeMs: int)
    | Flashback(lap: int, distance: real)
  {
    function Point(): LapPoint {
      LapPoint(lap, distance, if Record? then timeMs else 0)
    }

    /** The points of the past that this event declares void. */
    predicate Removes(p: LapPoint) {
      || (lap == p.lapNum && distance <= p.distance)
      || (Flashback? && lap < p.lapNum)
    }
  }

  // ---------------------------------------------------------------------
  // The meaning of an event log
  // ---------------------------------------------------------------------

  ghost predicate Survives(log: seq<Event>, i: nat)
    requires i < |log|
  {
    forall j :: i < j < |log| ==> !log[j].Removes(log[i].Point())
  }

  /** The surviving points that the first n events of the log wrote on the lap, in event order. */
  ghost function SurvivorsAmong(log: seq<Event>, lap: int, n: nat): seq<LapPoint>
    requires n <= |log|
  {
    if n == 0 then []
    else if log[n - 1].lap == lap && Survives(log, n - 1) then
      SurvivorsAmong(log, lap, n - 1) + [log[n - 1].Point()]
    else SurvivorsAmong(log, lap, n - 1)
  }

  ghost function Survivors(log: seq<Event>, lap: int): seq<LapPoint> {
    SurvivorsAmong(log, lap, |log|)
  }

  lemma LastPointOfExtended(log: seq<Event>, e: Event)
    ensures LastPointAfter(log + [e]) == Some(e.Point())
  {}

  /** The whole store: every lap that still has a point, with its points. */
  ghost function LapsAfter(log: seq<Event>): map<int, seq<LapPoint>> {
    map lap | lap in (set e | e in log :: e.lap) && Survivors(log, lap) != [] :: Survivors(log, lap)
  }

  ghost function LastPointAfter(log: seq<Event>): Option<LapPoint> {
    if log == [] then None else Some(log[|log| - 1].Point())
  }

  /** The points of a lap strictly before a distance. */
  function Below(points: seq<LapPoint>, d: real): seq<LapPoint> {
    if points == [] then []
    else
      var init, last := points[..|points| - 1], points[|points| - 1];
      if last.distance < d then Below(init, d) + [last] else Below(init, d)
  }

  function Distances(points: seq<LapPoint>): (ds: seq<real>)
    ensures |ds| == |points|
    ensures forall i :: 0 <= i < |ds| ==> ds[i] == points[i].distance
  {
    seq(|points|, i requires 0 <= i < |points| => points[i].distance)
  }

  ghost predicate Increasing(points: seq<LapPoint>) {
    forall i, j :: 0 <= i < j < |points| ==> points[i].distance < points[j].distance
  }

  ghost predicate OnLap(points: seq<LapPoint>, lap: int) {
    forall i :: 0 <= i < |points| ==> points[i].lapNum == lap
  }

  // ---------------------------------------------------------------------
  // How one more event changes the meaning
  // ---------------------------------------------------------------------

  lemma {:induction false} SurvivorsAreOnLap(log: seq<Event>, lap: int, n: nat)
    requires n <= |log|
    ensures OnLap(SurvivorsAmong(log, lap, n), lap)
  {
    if n == 0 {
    } else {
      SurvivorsAreOnLap(log, lap, n - 1);
    }
  }

  lemma SurvivesExtended(log: seq<Event>, e: Event, i: nat)
    requires i < |log|
    ensures Survives(log + [e], i) <==> Survives(log, i) && !e.Removes(log[i].Point())
  {
    var log' := log + [e];
    assert log'[|log|] == e;
    assert forall j :: 0 <= j < |log| ==> log'[j] == log[j];
  }

  /** What the past of a lap becomes under one event: cut below its distance, wiped, or left alone. */
  ghost function Cut(points: seq<LapPoint>, lap: int, e: Event): seq<LapPoint> {
    if e.lap == lap then Below(points, e.distance)
    else if e.Flashback? && e.lap < lap then []
    else points
  }

  lemma {:induction false} PastIsCut(log: seq<Event>, e: Event, lap: int, n: nat)
    requires n <= |log|
    ensures SurvivorsAmong(log + [e], lap, n) == Cut(SurvivorsAmong(log, lap, n), lap, e)
  {
    if n == 0 {
    } else {
      PastIsCut(log, e, lap, n - 1);
      SurvivesExtended(log, e, n - 1);
      var s := SurvivorsAmong(log, lap, n - 1);
      var p := log[n - 1].Point();
      assert (s + [p])[..|s|] == s;
    }
  }

  lemma SurvivorsStep(log: seq<Event>, e: Event, lap: int)
    ensures Survivors(log + [e], lap) ==
            if e.lap == lap then Below(Survivors(log, lap), e.distance) + [e.Point()]
            else Cut(Survivors(log, lap), lap, e)
  {
    PastIsCut(log, e, lap, |log|);
    assert Survives(log + [e], |log|);
  }

  lemma {:induction false} BelowIsPrefix(points: seq<LapPoint>, d: real, idx: nat)
    requires Increasing(points)
    requires idx <= |points|
    requires forall i :: 0 <= i < idx ==> points[i].distance < d
    requires forall i :: idx <= i < |points| ==> d <= points[i].distance
    ensures Below(points, d) == points[..idx]
  {
    if points == [] {
    } else {
      var init := points[..|points| - 1];
      if idx == |points| {
        BelowIsPrefix(init, d, idx - 1);
        assert points[..idx] == init[..idx - 1] + [points[|points| - 1]];
      } else {
        BelowIsPrefix(init, d, idx);
        assert points[..idx] == init[..idx];
      }
    }
  }

  lemma {:induction false} BelowFacts(points: seq<LapPoint>, d: real)
    requires Increasing(points)
    ensures Increasing(Below(points, d))
    ensures forall i :: 0 <= i < |Below(points, d)| ==> Below(points, d)[i].distance < d
  {
    if points == [] {
    } else {
      BelowFacts(points[..|points| - 1], d);
      BelowMembers(points[..|points| - 1], d);
    }
  }

  lemma {:induction false} BelowMembers(points: seq<LapPoint>, d: real)
    ensures forall p :: p in Below(points, d) <==> p in points && p.distance < d
  {
    if points == [] {
    } else {
      var init, last := points[..|points| - 1], points[|points| - 1];
      BelowMembers(init, d);
      assert points == init + [last];
    }
  }

  /** Distances on every lap are strictly increasing after any run. */
  lemma {:induction false} SurvivorsIncreasing(log: seq<Event>, lap: int)
    ensures Increasing(Survivors(log, lap))
    ensures OnLap(Survivors(log, lap), lap)
  {
    SurvivorsAreOnLap(log, lap, |log|);
    if log == [] {
    } else {
      var init, e := log[..|log| - 1], log[|log| - 1];
      assert log == init + [e];
      SurvivorsIncreasing(init, lap);
      SurvivorsStep(init, e, lap);
      BelowFacts(Survivors(init, lap), e.distance);
    }
  }

  /** The last recorded point is the last of its lap after any run. */
  lemma LastPointIsLastOfItsLap(log: seq<Event>)
    requires log != []
    ensures var p := LastPointAfter(log).value;
            && p.lapNum in LapsAfter(log)
            && LapsAfter(log)[p.lapNum][|LapsAfter(log)[p.lapNum]| - 1] == p
  {}

  lemma {:induction false} SurvivorsNeedAnEvent(log: seq<Event>, lap: int, n: nat)
    requires n <= |log|
    requires SurvivorsAmong(log, lap, n) != []
    ensures exists e :: e in log && e.lap == lap
  {
    if log[n - 1].lap == lap {
      assert log[n - 1] in log;
    } else {
      SurvivorsNeedAnEvent(log, lap, n - 1);
    }
  }

  lemma LapsAfterHolds(log: seq<Event>, lap: int)
    ensures lap in LapsAfter(log) <==> Survivors(log, lap) != []
    ensures lap in LapsAfter(log) ==> LapsAfter(log)[lap] == Survivors(log, lap)
  {
    if Survivors(log, lap) != [] {
      SurvivorsNeedAnEvent(log, lap, |log|);
      var e :| e in log && e.lap == lap;
      assert e.lap in (set e | e in log :: e.lap);
    }
  }

  function PointsOf(laps: map<int, seq<LapPoint>>, lap: int): seq<LapPoint> {
    if lap in laps then laps[lap] else []
  }

  function UpTo(laps: map<int, seq<LapPoint>>, lap: int): map<int, seq<LapPoint>> {
    map l | l in laps && l <= lap :: laps[l]
  }

  /** Recording a point: keep what lies strictly before it, then append it. */
  lemma RecordStep(log: seq<Event>, lap: int, d: real, t: int)
    ensures LapsAfter(log + [Record(lap, d, t)]) ==
            LapsAfter(log)[lap := Below(PointsOf(LapsAfter(log), lap), d) + [LapPoint(lap, d, t)]]
  {
    var e := Record(lap, d, t);
    var m := LapsAfter(log)[lap := Below(PointsOf(LapsAfter(log), lap), d) + [LapPoint(lap, d, t)]];
    forall l
      ensures l in LapsAfter(log + [e]) <==> l in m
      ensures l in m ==> LapsAfter(log + [e])[l] == m[l]
    {
      LapsAfterHolds(log, l);
      LapsAfterHolds(log + [e], l);
      SurvivorsStep(log, e, l);
    }
    assert LapsAfter(log + [e]).Keys == m.Keys;
  }

  /** A flashback: later laps go, its own lap keeps what lies strictly before it plus the anchor. */
  lemma FlashbackStep(log: seq<Event>, lap: int, d: real)
    ensures LapsAfter(log + [Flashback(lap, d)]) ==
            UpTo(LapsAfter(log), lap)
            [lap := Below(PointsOf(LapsAfter(log), lap), d) + [LapPoint(lap, d, 0)]]
  {
    var e := Flashback(lap, d);
    var m := UpTo(LapsAfter(log), lap)[lap := Below(PointsOf(LapsAfter(log), lap), d) + [LapPoint(lap, d, 0)]];
    forall l
      ensures l in LapsAfter(log + [e]) <==> l in m
      ensures l in m ==> LapsAfter(log + [e])[l] == m[l]
    {
      LapsAfterHolds(log, l);
      LapsAfterHolds(log + [e], l);
      SurvivorsStep(log, e, l);
    }
    assert LapsAfter(log + [e]).Keys == m.Keys;
  }

  // ---------------------------------------------------------------------
  // Flashback absorption
  // ---------------------------------------------------------------------

  ghost predicate SameStore(log1: seq<Event>, log2: seq<Event>) {
    LapsAfter(log1) == LapsAfter(log2) && LastPointAfter(log1) == LastPointAfter(log2)
  }

  predicate NotLater(lap2: int, d2: real, lap1: int, d1: real) {
    lap2 < lap1 || (lap2 == lap1 && d2 <= d1)
  }

  lemma {:induction false} BelowTwice(points: seq<LapPoint>, d1: real, d2: real)
    requires d2 <= d1
    ensures Below(Below(points, d1), d2) == Below(points, d2)
  {
    if points == [] {
    } else {
      var init, last := points[..|points| - 1], points[|points| - 1];
      BelowTwice(init, d1, d2);
      if last.distance < d1 {
        assert (Below(init, d1) + [last])[..|Below(init, d1)|] == Below(init, d1);
      }
    }
  }

  lemma {:induction false} BelowDropsLater(points: seq<LapPoint>, p: LapPoint, d: real)
    requires d <= p.distance
    ensures Below(points + [p], d) == Below(points, d)
  {}

  lemma AbsorbedOnLap(log: seq<Event>, lap1: int, d1: real, lap2: int, d2: real, lap: int)
    requires NotLater(lap2, d2, lap1, d1)
    ensures Survivors(log + [Flashback(lap1, d1)] + [Flashback(lap2, d2)], lap) ==
            Survivors(log + [Flashback(lap2, d2)], lap)
  {
    var e1, e2 := Flashback(lap1, d1), Flashback(lap2, d2);
    SurvivorsStep(log, e1, lap);
    SurvivorsStep(log + [e1], e2, lap);
    SurvivorsStep(log, e2, lap);
    if lap == lap2 {
      var s := Survivors(log, lap);
      if lap == lap1 {
        BelowDropsLater(Below(s, d1), e1.Point(), d2);
        BelowTwice(s, d1, d2);
      }
    }
  }

  /**
   A second flashback absorbs the first, on every timeline, exactly when it goes back to the
   same place or earlier.  With equal arguments this is idempotence.
   */
  lemma FlashbackAbsorption(lap1: int, d1: real, lap2: int, d2: real)
    ensures NotLater(lap2, d2, lap1, d1) <==>
            forall log: seq<Event> ::
              SameStore(log + [Flashback(lap1, d1)] + [Flashback(lap2, d2)], log + [Flashback(lap2, d2)])
  {
    var e1, e2 := Flashback(lap1, d1), Flashback(lap2, d2);
    if NotLater(lap2, d2, lap1, d1) {
      forall log: seq<Event>
        ensures SameStore(log + [e1] + [e2], log + [e2])
      {
        forall lap
          ensures lap in LapsAfter(log + [e1] + [e2]) <==> lap in LapsAfter(log + [e2])
          ensures lap in LapsAfter(log + [e2]) ==>
                    LapsAfter(log + [e1] + [e2])[lap] == LapsAfter(log + [e2])[lap]
        {
          AbsorbedOnLap(log, lap1, d1, lap2, d2, lap);
          LapsAfterHolds(log + [e1] + [e2], lap);
          LapsAfterHolds(log + [e2], lap);
        }
        assert LapsAfter(log + [e1] + [e2]).Keys == LapsAfter(log + [e2]).Keys;
      }
    } else {
      // On a fresh manager the first anchor outlives the second flashback.
      var none: seq<Event> := [];
      SurvivorsStep(none, e1, lap1);
      SurvivorsStep(none + [e1], e2, lap1);
      SurvivorsStep(none, e2, lap1);
      LapsAfterHolds(none + [e1] + [e2], lap1);
      LapsAfterHolds(none + [e2], lap1);
      assert !SameStore(none + [e1] + [e2], none + [e2]);
    }
  }

  // ---------------------------------------------------------------------
  // Reading a lap: interpolation by a linear scan
  // ---------------------------------------------------------------------

  /** Python's int(): truncation toward zero. */
  function Truncate(x: real): int {
    if x >= 0.0 then x.Floor else -((-x).Floor)
  }

  function Interpolate(lo: LapPoint, hi: LapPoint, d: real): real
    requires lo.distance < hi.distance
  {
    lo.timeMs as real
    + (d - lo.distance) / (hi.distance - lo.distance) * (hi.timeMs - lo.timeMs) as real
  }

  /** Walk the samples from the front until one sits at d, or two neighbours enclose it. */
  function TimeAt(points: seq<LapPoint>, d: real): Option<int> {
    if points == [] || d < points[0].distance then None
    else if d == points[0].distance then Some(points[0].timeMs)
    else if |points| > 1 && d < points[1].distance then Some(Truncate(Interpolate(points[0], points[1], d)))
    else TimeAt(points[1..], d)
  }

  /** A time is reported exactly for distances inside the recorded span. */
  lemma {:induction false} TimeAtCoversSpan(points: seq<LapPoint>, d: real)
    requires Increasing(points)
    ensures TimeAt(points, d).Some? <==>
            points != [] && points[0].distance <= d <= points[|points| - 1].distance
  {
    if points == [] || d <= points[0].distance || (|points| > 1 && d < points[1].distance) {
    } else {
      TimeAtCoversSpan(points[1..], d);
    }
  }

  lemma {:induction false} TimeAtSample(points: seq<LapPoint>, i: nat)
    requires Increasing(points)
    requires i < |points|
    ensures TimeAt(points, points[i].distance) == Some(points[i].timeMs)
  {
    if i == 0 {
    } else {
      TimeAtSample(points[1..], i - 1);
    }
  }

  lemma {:induction false} TimeAtBetween(points: seq<LapPoint>, i: nat, d: real)
    requires Increasing(points)
    requires i + 1 < |points|
    requires points[i].distance < d < points[i + 1].distance
    ensures TimeAt(points, d) == Some(Truncate(Interpolate(points[i], points[i + 1], d)))
  {
    if i == 0 {
    } else {
      TimeAtBetween(points[1..], i - 1, d);
    }
  }

  /** The integer nearest to x on the side of zero. */
  lemma TruncateIsTowardZero(x: real)
    ensures x >= 0.0 ==> 0.0 <= Truncate(x) as real <= x < Truncate(x) as real + 1.0
    ensures x <= 0.0 ==> Truncate(x) as real - 1.0 < x <= Truncate(x) as real <= 0.0
  {}

  /**
   The reported time is the truncated height y of the straight line through the two samples
   around the distance; y is pinned by equal slopes.
   */
  lemma TimeAtIsTruncatedLine(points: seq<LapPoint>, i: nat, d: real, y: real)
    requires Increasing(points)
    requires i + 1 < |points|
    requires points[i].distance < d < points[i + 1].distance
    requires var lo, hi := points[i], points[i + 1];
             (y - lo.timeMs as real) * (hi.distance - lo.distance)
             == (d - lo.distance) * (hi.timeMs - lo.timeMs) as real
    ensures TimeAt(points, d) == Some(Truncate(y))
  {
    var lo, hi := points[i], points[i + 1];
    TimeAtBetween(points, i, d);
    SlopeDetermines(y - lo.timeMs as real, hi.distance - lo.distance,
                    d - lo.distance, (hi.timeMs - lo.timeMs) as real);
    assert y == Interpolate(lo, hi, d);
  }

  lemma SlopeDetermines(rise: real, width: real, run: real, height: real)
    requires width > 0.0 && rise * width == run * height
    ensures rise == run / width * height
  {}

  lemma TruncateIsMonotone(x: real, y: real)
    requires x <= y
    ensures Truncate(x) <= Truncate(y)
  {}

  lemma TruncateFixesIntegers(n: int)
    ensures Truncate(n as real) == n
  {}

  lemma RatioInUnit(a: real, b: real)
    requires 0.0 <= a <= b
    requires 0.0 < b
    ensures 0.0 <= a / b <= 1.0
  {}

  lemma MulMonotone(r1: real, r2: real, k: real)
    requires r1 <= r2
    requires 0.0 <= k
    ensures r1 * k <= r2 * k
  {}

  /** Between two samples the line stays between their times. */
  lemma InterpolateInside(lo: LapPoint, hi: LapPoint, d: real)
    requires lo.distance <= d <= hi.distance
    requires lo.distance < hi.distance
    ensures lo.timeMs <= hi.timeMs ==> lo.timeMs as real <= Interpolate(lo, hi, d) <= hi.timeMs as real
    ensures hi.timeMs <= lo.timeMs ==> hi.timeMs as real <= Interpolate(lo, hi, d) <= lo.timeMs as real
  {
    var r := (d - lo.distance) / (hi.distance - lo.distance);
    RatioInUnit(d - lo.distance, hi.distance - lo.distance);
    var k := (hi.timeMs - lo.timeMs) as real;
    if k >= 0.0 {
      MulMonotone(0.0, r, k);
      MulMonotone(r, 1.0, k);
    } else {
      MulMonotone(0.0, r, -k);
      MulMonotone(r, 1.0, -k);
      assert r * -k == -(r * k);
    }
  }

  lemma InterpolateMonotone(lo: LapPoint, hi: LapPoint, d1: real, d2: real)
    requires lo.distance < hi.distance
    requires d1 <= d2
    requires lo.timeMs <= hi.timeMs
    ensures Interpolate(lo, hi, d1) <= Interpolate(lo, hi, d2)
  {
    var w := hi.distance - lo.distance;
    var r1, r2 := (d1 - lo.distance) / w, (d2 - lo.distance) / w;
    assert r1 <= r2;
    MulMonotone(r1, r2, (hi.timeMs - lo.timeMs) as real);
  }

  /** After truncation the reported time still lies between the neighbouring integer times. */
  lemma TimeAtStaysBetweenNeighbours(points: seq<LapPoint>, i: nat, d: real)
    requires Increasing(points)
    requires i + 1 < |points|
    requires points[i].distance <= d <= points[i + 1].distance
    ensures TimeAt(points, d).Some?
    ensures var t, a, b := TimeAt(points, d).value, points[i].timeMs, points[i + 1].timeMs;
            a <= t <= b || b <= t <= a
  {
    if d == points[i].distance {
      TimeAtSample(points, i);
    } else if d == points[i + 1].distance {
      TimeAtSample(points, i + 1);
    } else {
      TimeAtBetween(points, i, d);
      var lo, hi := points[i], points[i + 1];
      InterpolateInside(lo, hi, d);
      var x := Interpolate(lo, hi, d);
      TruncateFixesIntegers(lo.timeMs);
      TruncateFixesIntegers(hi.timeMs);
      if lo.timeMs <= hi.timeMs {
        TruncateIsMonotone(lo.timeMs as real, x);
        TruncateIsMonotone(x, hi.timeMs as real);
      } else {
        TruncateIsMonotone(hi.timeMs as real, x);
        TruncateIsMonotone(x, lo.timeMs as real);
      }
    }
  }

  ghost predicate TimesNondecreasing(points: seq<LapPoint>) {
    forall i, j :: 0 <= i < j < |points| ==> points[i].timeMs <= points[j].timeMs
  }

  ghost predicate ReadsNondecreasing(points: seq<LapPoint>) {
    forall d1: real, d2: real | d1 <= d2 && TimeAt(points, d1).Some? && TimeAt(points, d2).Some? ::
      TimeAt(points, d1).value <= TimeAt(points, d2).value
  }

  lemma {:induction false} TimeAtAboveFirst(points: seq<LapPoint>, d: real)
    requires Increasing(points) && TimesNondecreasing(points)
    requires TimeAt(points, d).Some?
    ensures points[0].timeMs <= TimeAt(points, d).value
  {
    if d <= points[0].distance {
    } else if |points| > 1 && d < points[1].distance {
      TimeAtStaysBetweenNeighbours(points, 0, d);
    } else {
      TimeAtAboveFirst(points[1..], d);
    }
  }

  lemma {:induction false} TimeAtMonotone(points: seq<LapPoint>, d1: real, d2: real)
    requires Increasing(points) && TimesNondecreasing(points)
    requires d1 <= d2
    requires TimeAt(points, d1).Some? && TimeAt(points, d2).Some?
    ensures TimeAt(points, d1).value <= TimeAt(points, d2).value
  {
    if d1 == points[0].distance {
      TimeAtAboveFirst(points, d2);
    } else if |points| > 1 && d1 < points[1].distance {
      if d2 < points[1].distance {
        InterpolateMonotone(points[0], points[1], d1, d2);
        TruncateIsMonotone(Interpolate(points[0], points[1], d1), Interpolate(points[0], points[1], d2));
      } else {
        TimeAtStaysBetweenNeighbours(points, 0, d1);
        TimeAtAboveFirst(points[1..], d2);
      }
    } else {
      TimeAtMonotone(points[1..], d1, d2);
    }
  }

  /** Reads are nondecreasing in distance exactly when the stored times are. */
  lemma ReadsMonotoneIffTimesAre(points: seq<LapPoint>)
    requires Increasing(points)
    ensures ReadsNondecreasing(points) <==> TimesNondecreasing(points)
  {
    if TimesNondecreasing(points) {
      forall d1: real, d2: real | d1 <= d2 && TimeAt(points, d1).Some? && TimeAt(points, d2).Some?
        ensures TimeAt(points, d1).value <= TimeAt(points, d2).value
      {
        TimeAtMonotone(points, d1, d2);
      }
    }
    if ReadsNondecreasing(points) {
      forall i, j | 0 <= i < j < |points|
        ensures points[i].timeMs <= points[j].timeMs
      {
        TimeAtSample(points, i);
        TimeAtSample(points, j);
      }
    }
  }

  lemma {:induction false} BelowIsInitial(points: seq<LapPoint>, d: real)
    requires Increasing(points)
    ensures Below(points, d) <= points
  {
    if points == [] {
    } else {
      var init, last := points[..|points| - 1], points[|points| - 1];
      if last.distance < d {
        BelowIsPrefix(points, d, |points|);
      } else {
        BelowIsInitial(init, d);
      }
    }
  }

  /**
   One event keeps the order of its lap's times exactly when the last point it keeps has a time
   not above its own; on every other lap it always does.
   */
  lemma EventKeepsTimeOrderIff(log: seq<Event>, e: Event, lap: int)
    requires TimesNondecreasing(Survivors(log, lap))
    ensures var kept := Below(Survivors(log, lap), e.distance);
            TimesNondecreasing(Survivors(log + [e], lap))
            <==> lap != e.lap || kept == [] || kept[|kept| - 1].timeMs <= e.Point().timeMs
  {
    SurvivorsStep(log, e, lap);
    SurvivorsIncreasing(log, lap);
    var kept := Below(Survivors(log, lap), e.distance);
    BelowIsInitial(Survivors(log, lap), e.distance);
    if lap == e.lap && kept != [] {
      var after := kept + [e.Point()];
      assert after[|kept| - 1] == kept[|kept| - 1] && after[|kept|] == e.Point();
      assert forall i :: 0 <= i < |kept| ==> kept[i] == Survivors(log, lap)[i];
      assert forall i :: 0 <= i < |kept| ==> kept[i].timeMs <= kept[|kept| - 1].timeMs;
    }
  }

  /** The anchor of a flashback carries time 0, so a lap's times need not be monotone. */
  lemma AnchorBreaksTimeOrder(log: seq<Event>)
    requires log == [Record(1, 10.0, 1000)]
    ensures !TimesNondecreasing(Survivors(log + [Flashback(1, 20.0)], 1))
    ensures !ReadsNondecreasing(Survivors(log + [Flashback(1, 20.0)], 1))
  {
    var before, e := Survivors(log, 1), Flashback(1, 20.0);
    var after := Survivors(log + [e], 1);
    assert log == [] + [log[0]];
    SurvivorsStep([], log[0], 1);
    SurvivorsStep(log, e, 1);
    BelowMembers(before, 20.0);
    assert log[0].Point() in before;
    var i :| 0 <= i < |after| - 1 && after[i] == log[0].Point();
    assert after[|after| - 1].timeMs < after[i].timeMs;
    SurvivorsIncreasing(log + [e], 1);
    ReadsMonotoneIffTimesAre(after);
  }

  // ---------------------------------------------------------------------
  // The delta to the best lap
  // ---------------------------------------------------------------------

  ghost function DeltaAfter(log: seq<Event>, best: Option<int>): Option<DeltaResult> {
    if best.None? || log == [] then None
    else
      var curr := LastPointAfter(log).value;
      match TimeAt(Survivors(log, best.value), curr.distance)
      case None => None
      case Some(t) => Some(DeltaResult(curr.timeMs - t, curr, best.value, t, curr.distance))
  }

  /** A delta is reported exactly when the best lap's surviving samples span the current distance. */
  lemma DeltaDefinedIff(log: seq<Event>, best: Option<int>)
    ensures DeltaAfter(log, best).Some? <==>
            && best.Some? && log != [] && Survivors(log, best.value) != []
            && var s := Survivors(log, best.value);
               s[0].distance <= log[|log| - 1].distance <= s[|s| - 1].distance
  {
    if best.Some? && log != [] {
      SurvivorsIncreasing(log, best.value);
      TimeAtCoversSpan(Survivors(log, best.value), log[|log| - 1].distance);
    }
  }

  /** Where the best lap has a sample at the car's distance, the delta is the difference to its time. */
  lemma DeltaAtSample(log: seq<Event>, best: int, i: nat)
    requires log != [] && i < |Survivors(log, best)|
    requires Survivors(log, best)[i].distance == log[|log| - 1].distance
    ensures DeltaAfter(log, Some(best)).Some?
    ensures var r, last, s := DeltaAfter(log, Some(best)).value, log[|log| - 1], Survivors(log, best);
            && r.deltaMs == last.Point().timeMs - s[i].timeMs
            && r.currPoint == last.Point() && r.bestLapNum == best
            && r.bestTimeMs == s[i].timeMs && r.distance == last.distance
  {
    SurvivorsIncreasing(log, best);
    TimeAtSample(Survivors(log, best), i);
  }

  /** Between two samples of the best lap, it is the difference to the truncated line through them. */
  lemma DeltaBetweenSamples(log: seq<Event>, best: int, i: nat, y: real)
    requires log != [] && i + 1 < |Survivors(log, best)|
    requires var s, d := Survivors(log, best), log[|log| - 1].distance;
             && s[i].distance < d < s[i + 1].distance
             && (y - s[i].timeMs as real) * (s[i + 1].distance - s[i].distance)
                == (d - s[i].distance) * (s[i + 1].timeMs - s[i].timeMs) as real
    ensures DeltaAfter(log, Some(best)).Some?
    ensures var r, last := DeltaAfter(log, Some(best)).value, log[|log| - 1];
            && r.deltaMs == last.Point().timeMs - Truncate(y)
            && r.currPoint == last.Point() && r.bestLapNum == best
            && r.bestTimeMs == Truncate(y) && r.distance == last.distance
  {
    SurvivorsIncreasing(log, best);
    TimeAtIsTruncatedLine(Survivors(log, best), i, log[|log| - 1].distance, y);
  }

  /** Measured against its own lap the car is level, whatever happened before. */
  lemma DeltaToOwnLapIsZero(log: seq<Event>)
    requires log != []
    ensures var best := log[|log| - 1].lap;
            DeltaAfter(log, Some(best)).Some? && DeltaAfter(log, Some(best)).value.deltaMs == 0
  {
    var best := log[|log| - 1].lap;
    var s := Survivors(log, best);
    LastPointIsLastOfItsLap(log);
    LapsAfterHolds(log, best);
    SurvivorsIncreasing(log, best);
    TimeAtSample(s, |s| - 1);
  }

  // ---------------------------------------------------------------------
  // The caller's protocol: every flashback is followed by a record at the same place
  // ---------------------------------------------------------------------

  /** One telemetry packet: an optional flashback, then the sample. */
  datatype Tick = Tick(flashback: bool, lap: int, distance: real, timeMs: int)

  ghost function TickLog(ticks: seq<Tick>): seq<Event> {
    if ticks == [] then []
    else
      var t := ticks[|ticks| - 1];
      TickLog(ticks[..|ticks| - 1])
      + (if t.flashback then [Flashback(t.lap, t.distance)] else [])
      + [Record(t.lap, t.distance, t.timeMs)]
  }

  /** Every point is a sample of some tick: no zero-time anchor is left on any lap. */
  ghost predicate AllFromTicks(points: seq<LapPoint>, ticks: seq<Tick>) {
    forall p | p in points ::
      exists t :: t in ticks && p == LapPoint(t.lap, t.distance, t.timeMs)
  }

  lemma {:induction false} NoAnchorOutlivesItsTick(ticks: seq<Tick>, lap: int)
    ensures AllFromTicks(Survivors(TickLog(ticks), lap), ticks)
  {
    if ticks == [] {
    } else {
      var init, t := ticks[..|ticks| - 1], ticks[|ticks| - 1];
      NoAnchorOutlivesItsTick(init, lap);
      assert ticks == init + [t];
      var log := TickLog(init);
      var s := Survivors(log, lap);
      var r := Record(t.lap, t.distance, t.timeMs);
      BelowMembers(s, t.distance);
      if t.flashback {
        var f := Flashback(t.lap, t.distance);
        SurvivorsStep(log, f, lap);
        SurvivorsStep(log + [f], r, lap);
        if lap == t.lap {
          BelowDropsLater(Below(s, t.distance), f.Point(), t.distance);
          BelowTwice(s, t.distance, t.distance);
        }
        assert TickLog(ticks) == log + [f] + [r];
      } else {
        SurvivorsStep(log, r, lap);
        assert TickLog(ticks) == log + [] + [r] == log + [r];
      }
      assert t in ticks;
      forall p | p in Survivors(TickLog(ticks), lap)
        ensures exists u :: u in ticks && p == LapPoint(u.lap, u.distance, u.timeMs)
      {
        if p in s {
          var u :| u in init && p == LapPoint(u.lap, u.distance, u.timeMs);
          assert u in ticks;
        } else {
          assert p == LapPoint(t.lap, t.distance, t.timeMs);
        }
      }
    }
  }

  // ---------------------------------------------------------------------
  // The manager
  // ---------------------------------------------------------------------

  /** bisect.bisect_left on a strictly increasing list. */
  method BisectLeft(dists: seq<real>, d: real) returns (idx: nat)
    requires forall i, j :: 0 <= i < j < |dists| ==> dists[i] < dists[j]
    ensures idx <= |dists|
    ensures forall i :: 0 <= i < idx ==> dists[i] < d
    ensures forall i :: idx <= i < |dists| ==> d <= dists[i]
  {
    var lo, hi := 0, |dists|;
    while lo < hi
      invariant 0 <= lo <= hi <= |dists|
      invariant forall i :: 0 <= i < lo ==> dists[i] < d
      invariant forall i :: hi <= i < |dists| ==> d <= dists[i]
    {
      var mid := (lo + hi) / 2;
      if dists[mid] < d {
        lo := mid + 1;
      } else {
        hi := mid;
      }
    }
    idx := lo;
  }

  /** The fields of a manager mean what its event log means. */
  ghost predicate Consistent(laps: map<int, seq<LapPoint>>, dists: map<int, seq<real>>,
                             last: Option<LapPoint>, log: seq<Event>)
  {
    && laps == LapsAfter(log)
    && Parallel(laps, dists)
    && last == LastPointAfter(log)
  }

  /** The two dictionaries describe the same points. */
  ghost predicate Parallel(laps: map<int, seq<LapPoint>>, dists: map<int, seq<real>>) {
    && dists.Keys == laps.Keys
    && forall l :: l in laps ==> dists[l] == Distances(laps[l])
  }

  lemma ConsistentLap(laps: map<int, seq<LapPoint>>, dists: map<int, seq<real>>,
                      last: Option<LapPoint>, log: seq<Event>, l: int)
    requires Consistent(laps, dists, last, log)
    ensures l in laps <==> Survivors(log, l) != []
    ensures l in laps <==> l in dists
    ensures PointsOf(laps, l) == Survivors(log, l)
    ensures Increasing(PointsOf(laps, l))
    ensures l in laps ==> dists[l] == Distances(laps[l])
  {
    LapsAfterHolds(log, l);
    SurvivorsIncreasing(log, l);
  }

  /** Appending p to the trimmed points of its lap keeps the dictionaries parallel. */
  lemma ParallelAppend(laps: map<int, seq<LapPoint>>, dists: map<int, seq<real>>,
                       pts: seq<LapPoint>, p: LapPoint)
    requires Parallel(laps, dists)
    ensures Parallel(laps[p.lapNum := pts + [p]], dists[p.lapNum := Distances(pts) + [p.distance]])
  {}

  class LapDeltaManager {
    var laps: map<int, seq<LapPoint>>
    var lapDistances: map<int, seq<real>>
    var bestLapNum: Option<int>
    var lastRecordedPoint: Option<LapPoint>
    ghost var log: seq<Event>

    /** Both dictionaries, and the last point, are what the event log means. */
    ghost predicate Valid()
      reads this
    {
      Consistent(laps, lapDistances, lastRecordedPoint, log)
    }

    constructor ()
      ensures Valid() && log == [] && bestLapNum == None
    {
      laps, lapDistances := map[], map[];
      bestLapNum, lastRecordedPoint := None, None;
      log := [];
    }

    method RecordDataPoint(lapNum: int, currDistance: real, currTimeMs: int)
      requires Valid()
      modifies this
      ensures Valid() && log == old(log) + [Record(lapNum, currDistance, currTimeMs)]
      ensures laps == old(laps)[lapNum := Below(PointsOf(old(laps), lapNum), currDistance)
                                          + [LapPoint(lapNum, currDistance, currTimeMs)]]
      ensures bestLapNum == old(bestLapNum)
    {
      hide LapsAfter, Survivors, Parallel;
      ConsistentLap(laps, lapDistances, lastRecordedPoint, log, lapNum);
      var pts := if lapNum in laps then laps[lapNum] else [];
      var dists := if lapNum in laps then lapDistances[lapNum] else [];
      if pts != [] {
        var lastDist := dists[|dists| - 1];
        if currDistance > lastDist {
          BelowIsPrefix(pts, currDistance, |pts|);
        } else {
          // Timeline rewrite: drop every point at or beyond the new distance.
          var dropIdx := BisectLeft(dists, currDistance);
          BelowIsPrefix(pts, currDistance, dropIdx);
          pts, dists := pts[..dropIdx], dists[..dropIdx];
        }
      }
      assert pts == Below(PointsOf(laps, lapNum), currDistance);
      RecordStep(log, lapNum, currDistance, currTimeMs);
      LastPointOfExtended(log, Record(lapNum, currDistance, currTimeMs));
      Append(pts, dists, LapPoint(lapNum, currDistance, currTimeMs));
      log := log + [Record(lapNum, currDistance, currTimeMs)];
    }

    /** Put a lap's trimmed lists back with one more point, the new last one. */
    method Append(pts: seq<LapPoint>, dists: seq<real>, p: LapPoint)
      requires Parallel(laps, lapDistances)
      requires dists == Distances(pts)
      modifies this`laps, this`lapDistances, this`lastRecordedPoint
      ensures Parallel(laps, lapDistances)
      ensures laps == old(laps)[p.lapNum := pts + [p]]
      ensures lastRecordedPoint == Some(p)
    {
      ParallelAppend(laps, lapDistances, pts, p);
      laps := laps[p.lapNum := pts + [p]];
      lapDistances := lapDistances[p.lapNum := dists + [p.distance]];
      lastRecordedPoint := Some(p);
    }

    method SetBestLap(lapNum: int)
      requires Valid()
      modifies this`bestLapNum
      ensures Valid() && bestLapNum == Some(lapNum)
    {
      bestLapNum := Some(lapNum);
    }

    method HandleFlashback(lapNum: int, currDistance: real)
      requires Valid()
      modifies this
      ensures Valid() && log == old(log) + [Flashback(lapNum, currDistance)]
      ensures laps == UpTo(old(laps), lapNum)
                      [lapNum := Below(PointsOf(old(laps), lapNum), currDistance)
                                 + [LapPoint(lapNum, currDistance, 0)]]
      ensures bestLapNum == old(bestLapNum)
    {
      ConsistentLap(laps, lapDistances, lastRecordedPoint, log, lapNum);
      FlashbackStep(log, lapNum, currDistance);
      LastPointOfExtended(log, Flashback(lapNum, currDistance));
      RemoveLapsAfter(lapNum);
      TrimLap(lapNum, currDistance);
      log := log + [Flashback(lapNum, currDistance)];
    }

    /** Cut one lap below a distance and put the anchor there. */
    method TrimLap(lapNum: int, currDistance: real)
      requires Parallel(laps, lapDistances)
      requires Increasing(PointsOf(laps, lapNum))
      modifies this`laps, this`lapDistances, this`lastRecordedPoint
      ensures Parallel(laps, lapDistances)
      ensures laps == old(laps)[lapNum := Below(PointsOf(old(laps), lapNum), currDistance)
                                          + [LapPoint(lapNum, currDistance, 0)]]
      ensures lastRecordedPoint == Some(LapPoint(lapNum, currDistance, 0))
    {
      var pts := if lapNum in laps then laps[lapNum] else [];
      var dists := if lapNum in laps then lapDistances[lapNum] else [];
      var idx := BisectLeft(dists, currDistance);
      BelowIsPrefix(pts, currDistance, idx);
      Append(pts[..idx], dists[..idx], LapPoint(lapNum, currDistance, 0));
    }

    method RemoveLapsAfter(lapNum: int)
      requires Parallel(laps, lapDistances)
      modifies this`laps, this`lapDistances
      ensures Parallel(laps, lapDistances)
      ensures laps == UpTo(old(laps), lapNum)
    {
      ghost var before := laps;
      var keys := laps.Keys;
      while keys != {}
        invariant keys <= before.Keys
        invariant Parallel(laps, lapDistances)
        invariant forall l :: l in laps <==> l in before && (l <= lapNum || l in keys)
        invariant forall l :: l in laps ==> laps[l] == before[l]
        decreases keys
      {
        ghost var member := Member(keys);
        var l :| l in keys;
        keys := keys - {l};
        if l > lapNum {
          laps := laps - {l};
          lapDistances := lapDistances - {l};
        }
      }
      assert forall l :: l in laps <==> l in UpTo(before, lapNum);
      assert laps.Keys == UpTo(before, lapNum).Keys;
    }

    /** The bisect reading of a lap is the linear-scan reading. */
    method InterpolatedTimeForDistance(lapNum: int, distance: real) returns (t: Option<int>)
      requires Valid()
      ensures t == TimeAt(Survivors(log, lapNum), distance)
    {
      hide LapsAfter, Survivors, Parallel;
      ConsistentLap(laps, lapDistances, lastRecordedPoint, log, lapNum);
      ghost var s := Survivors(log, lapNum);
      if lapNum !in lapDistances || lapDistances[lapNum] == [] {
        assert s == [];
        return None;
      }
      var dists, pts := lapDistances[lapNum], laps[lapNum];
      assert pts == s;
      TimeAtCoversSpan(pts, distance);
      if distance < dists[0] || distance > dists[|dists| - 1] {
        assert TimeAt(s, distance).None?;
        return None;
      }
      var idx := BisectLeft(dists, distance);
      if idx < |dists| && dists[idx] == distance {
        TimeAtSample(pts, idx);
        assert TimeAt(s, distance) == Some(pts[idx].timeMs);
        return Some(pts[idx].timeMs);
      }
      var lo, hi := idx - 1, idx;
      var dLo, dHi := dists[lo], dists[hi];
      var tLo, tHi := pts[lo].timeMs, pts[hi].timeMs;
      TimeAtBetween(pts, lo, distance);
      assert dLo < dHi;  // so the equal-distance answer below is never used
      var time := if dHi == dLo then tLo
                  else var ratio := (distance - dLo) / (dHi - dLo);
                       Truncate(tLo as real + ratio * (tHi - tLo) as real);
      assert time == Truncate(Interpolate(pts[lo], pts[hi], distance));
      t := Some(time);
    }

    method GetDelta() returns (r: Option<DeltaResult>)
      requires Valid()
      ensures r == DeltaAfter(log, bestLapNum)
    {
      if bestLapNum.None? || lastRecordedPoint.None? {
        return None;
      }
      var best := bestLapNum.value;
      ConsistentLap(laps, lapDistances, lastRecordedPoint, log, best);
      if best !in laps || laps[best] == [] {
        return None;
      }
      var curr := lastRecordedPoint.value;
      var bestTime := InterpolatedTimeForDistance(best, curr.distance);
      if bestTime.None? {
        return None;
      }
      return Some(DeltaResult(curr.timeMs - bestTime.value, curr, best, bestTime.value, curr.distance));
    }
  }
}
