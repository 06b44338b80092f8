/**
 The save-file checks of lib/save_invariants.py.  The rules look at neighbouring entries; the
 theorems say what their silence means for the whole file.  A violation carries its rule and
 the positions it is about instead of a message.
 */
module SaveInvariants {
  import opened Common

  datatype Stint = Stint(start: Option<int>, end: Option<int>, wear: seq<Option<real>>)

  datatype Driver = Driver(position: Option<int>, index: Option<int>, laps: seq<Option<int>>,
                           stints: seq<Stint>, restricted: bool)

  datatype Violation =
    | Metadata
    | StintBounds(i: nat)
    | StintContinuity(i: nat)
    | WearEmpty(i: nat)
    | WearRange(i: nat, j: nat)
    | WearMonotonic(i: nat, j: nat)
    | LapDuplicate(i: nat)
    | PositionDuplicate(i: nat)
    | IndexDuplicate(i: nat)

  // ---------------------------------------------------------------------
  // Stint structure
  // ---------------------------------------------------------------------

  predicate BadBounds(s: Stint) {
    s.start.None? || (s.end.Some? && s.end.value < s.start.value)
  }

  predicate BadJoin(a: Stint, b: Stint) {
    a.end.Some? && b.start.Some? && b.start.value != a.end.value + 1
  }

  /** The findings of the structure rule. */
  predicate StructureFinding(stints: seq<Stint>, v: Violation) {
    match v
    case StintBounds(i) => i < |stints| && BadBounds(stints[i])
    case StintContinuity(i) => i < |stints| - 1 && BadJoin(stints[i], stints[i + 1])
    case _ => false
  }

  method CheckStintStructure(stints: seq<Stint>) returns (vs: seq<Violation>)
    ensures forall v :: v in vs <==> StructureFinding(stints, v)
  {
    vs := [];
    for i := 0 to |stints|
      invariant forall v :: v in vs <==> v.StintBounds? && v.i < i && BadBounds(stints[v.i])
    {
      if BadBounds(stints[i]) {
        vs := vs + [StintBounds(i)];
      }
    }
    ghost var bounds := vs;
    var j := 0;
    while j < |stints| - 1
      invariant 0 <= j && (j <= |stints| - 1 || (|stints| == 0 && j == 0))
      invariant forall v :: v in vs <==>
                  v in bounds || (v.StintContinuity? && v.i < j && BadJoin(stints[v.i], stints[v.i + 1]))
    {
      if BadJoin(stints[j], stints[j + 1]) {
        vs := vs + [StintContinuity(j)];
      }
      j := j + 1;
    }
  }

  lemma StructureSilentIffClean(stints: seq<Stint>)
    ensures (forall v :: !StructureFinding(stints, v)) <==> StructureClean(stints)
  {
    if forall v :: !StructureFinding(stints, v) {
      forall i | 0 <= i < |stints|
        ensures !BadBounds(stints[i])
      {
        assert !StructureFinding(stints, StintBounds(i));
      }
      forall i | 0 <= i < |stints| - 1
        ensures !BadJoin(stints[i], stints[i + 1])
      {
        assert !StructureFinding(stints, StintContinuity(i));
      }
    }
  }

  /** The stint a car is on has no end yet; every earlier one has. */
  predicate OnlyLastOpen(stints: seq<Stint>) {
    forall i :: 0 <= i < |stints| - 1 ==> stints[i].end.Some?
  }

  /** An open stint holds every lap from its start on. */
  predicate Holds(s: Stint, lap: int) {
    s.start.Some? && s.start.value <= lap && (s.end.None? || lap <= s.end.value)
  }

  ghost predicate Covered(stints: seq<Stint>, lap: int) {
    exists i :: 0 <= i < |stints| && Holds(stints[i], lap)
  }

  /** The stints, in order, cut the laps from the first start to the last end without gap or overlap. */
  ghost predicate Partition(stints: seq<Stint>)
    requires OnlyLastOpen(stints)
  {
    && (forall i :: 0 <= i < |stints| ==> stints[i].start.Some?)
    && (forall i :: 0 <= i < |stints| && stints[i].end.Some? ==> stints[i].start.value <= stints[i].end.value)
    && (forall i, j :: 0 <= i < j < |stints| ==> stints[i].end.value < stints[j].start.value)
    && (forall lap :: stints != [] && InSpan(stints, lap) ==> Covered(stints, lap))
  }

  /** Between the first start and the last end, or anywhere after the first start if there is no end. */
  predicate InSpan(stints: seq<Stint>, lap: int)
    requires stints != []
  {
    && (stints[0].start.Some? ==> stints[0].start.value <= lap)
    && (stints[|stints| - 1].end.Some? ==> lap <= stints[|stints| - 1].end.value)
  }

  predicate StructureClean(stints: seq<Stint>) {
    && (forall i :: 0 <= i < |stints| ==> !BadBounds(stints[i]))
    && (forall i :: 0 <= i < |stints| - 1 ==> !BadJoin(stints[i], stints[i + 1]))
  }

  lemma {:induction false} CleanStintsOrdered(stints: seq<Stint>, i: nat, j: nat)
    requires OnlyLastOpen(stints) && StructureClean(stints)
    requires i < j < |stints|
    ensures stints[i].start.Some? && stints[j].start.Some?
    ensures stints[i].end.value < stints[j].start.value
  {
    assert !BadBounds(stints[i]) && !BadBounds(stints[j]) && !BadBounds(stints[j - 1]);
    assert !BadJoin(stints[j - 1], stints[j - 1 + 1]);
    if i == j - 1 {
    } else {
      CleanStintsOrdered(stints, i, j - 1);
    }
  }

  lemma {:induction false} CleanStintsCover(stints: seq<Stint>, n: nat, lap: int)
    requires OnlyLastOpen(stints) && StructureClean(stints)
    requires n < |stints| && stints[0].start.Some? && stints[0].start.value <= lap
    requires stints[n].end.Some? ==> lap <= stints[n].end.value
    ensures exists i :: 0 <= i <= n && Holds(stints[i], lap)
  {
    assert !BadBounds(stints[n]);
    if Holds(stints[n], lap) {
    } else if n > 0 {
      assert !BadJoin(stints[n - 1], stints[n - 1 + 1]);
      CleanStintsCover(stints, n - 1, lap);
    }
  }

  lemma CleanIsPartition(stints: seq<Stint>)
    requires OnlyLastOpen(stints) && StructureClean(stints)
    ensures Partition(stints)
  {
    forall i | 0 <= i < |stints|
      ensures stints[i].start.Some? && (stints[i].end.Some? ==> stints[i].start.value <= stints[i].end.value)
    {
      assert !BadBounds(stints[i]);
    }
    forall i, j | 0 <= i < j < |stints|
      ensures stints[i].end.value < stints[j].start.value
    {
      CleanStintsOrdered(stints, i, j);
    }
    forall lap | stints != [] && InSpan(stints, lap)
      ensures Covered(stints, lap)
    {
      CleanStintsCover(stints, |stints| - 1, lap);
    }
  }

  /**
   With no open stint but the last, the structure rule is silent exactly when the stints are a
   partition.
   */
  lemma StructureCleanIffPartition(stints: seq<Stint>)
    requires OnlyLastOpen(stints)
    ensures StructureClean(stints) <==> Partition(stints)
  {
    if StructureClean(stints) {
      CleanIsPartition(stints);
    }
    if Partition(stints) {
      forall i | 0 <= i < |stints| - 1
        ensures !BadJoin(stints[i], stints[i + 1])
      {
        PartitionJoins(stints, i);
      }
    }
  }

  lemma PartitionJoins(stints: seq<Stint>, i: nat)
    requires OnlyLastOpen(stints) && Partition(stints) && i + 1 < |stints|
    ensures stints[i + 1].start.value == stints[i].end.value + 1
  {
    var lap := stints[i].end.value + 1;
    var last := |stints| - 1;
    assert i == 0 || stints[0].end.value < stints[i].start.value;
    assert stints[0].start.value <= lap <= stints[i + 1].start.value;
    assert i + 1 == last || stints[i + 1].end.value < stints[last].start.value;
    assert InSpan(stints, lap);
    assert Covered(stints, lap);
    var k :| 0 <= k < |stints| && Holds(stints[k], lap);
    if k > i + 1 {
      assert stints[i + 1].end.value < stints[k].start.value;
    }
  }

  /** Every stretch of stints in which only the last is open is a partition. */
  ghost predicate StretchesPartition(stints: seq<Stint>) {
    forall a, b :: 0 <= a <= b <= |stints| && OnlyLastOpen(stints[a..b]) ==> Partition(stints[a..b])
  }

  /** For any stints, open ones in the middle included: where the rule is silent and where not. */
  lemma StructureCleanIffStretchesPartition(stints: seq<Stint>)
    ensures StructureClean(stints) <==> StretchesPartition(stints)
    ensures OnlyLastOpen(stints) ==> (StretchesPartition(stints) <==> Partition(stints))
  {
    if StructureClean(stints) {
      forall a, b | 0 <= a <= b <= |stints| && OnlyLastOpen(stints[a..b])
        ensures Partition(stints[a..b])
      {
        StretchClean(stints, a, b);
        CleanIsPartition(stints[a..b]);
      }
    }
    if StretchesPartition(stints) {
      forall i | 0 <= i < |stints|
        ensures !BadBounds(stints[i])
      {
        var stretch := stints[i..i + 1];
        assert OnlyLastOpen(stretch) && Partition(stretch) && stretch[0] == stints[i];
      }
      forall i | 0 <= i < |stints| - 1
        ensures !BadJoin(stints[i], stints[i + 1])
      {
        if stints[i].end.Some? {
          PairJoins(stints, i);
        }
      }
    }
    if OnlyLastOpen(stints) {
      StructureCleanIffPartition(stints);
    }
  }

  lemma StretchClean(stints: seq<Stint>, a: nat, b: nat)
    requires StructureClean(stints) && a <= b <= |stints|
    ensures StructureClean(stints[a..b])
  {
    var stretch := stints[a..b];
    assert forall i :: 0 <= i < |stretch| ==> stretch[i] == stints[a + i];
    forall i | 0 <= i < |stretch| - 1
      ensures !BadJoin(stretch[i], stretch[i + 1])
    {
      assert !BadJoin(stints[a + i], stints[a + i + 1]);
    }
  }

  lemma PairJoins(stints: seq<Stint>, i: nat)
    requires StretchesPartition(stints) && i + 1 < |stints| && stints[i].end.Some?
    ensures !BadJoin(stints[i], stints[i + 1])
  {
    var pair := stints[i..i + 2];
    assert pair[0] == stints[i] && pair[1] == stints[i + 1];
    assert OnlyLastOpen(pair) && Partition(pair);
    PartitionJoins(pair, 0);
  }

  // ---------------------------------------------------------------------
  // Tyre wear
  // ---------------------------------------------------------------------

  predicate BadRange(a: Option<real>) {
    a.None? || !(0.0 <= a.value <= 100.0)
  }

  predicate Decrease(a: Option<real>, b: Option<real>) {
    a.Some? && b.Some? && b.value < a.value
  }

  /** The findings of the wear rule: an empty history, a bad value, a decrease to the next lap. */
  predicate WearFinding(stints: seq<Stint>, v: Violation) {
    match v
    case WearEmpty(i) => i < |stints| && stints[i].wear == []
    case WearRange(i, j) => i < |stints| && j < |stints[i].wear| && BadRange(stints[i].wear[j])
    case WearMonotonic(i, j) =>
      i < |stints| && j < |stints[i].wear| - 1 && Decrease(stints[i].wear[j], stints[i].wear[j + 1])
    case _ => false
  }

  method CheckStintWear(stints: seq<Stint>) returns (vs: seq<Violation>)
    ensures forall v :: v in vs <==> WearFinding(stints, v)
  {
    vs := [];
    for i := 0 to |stints|
      invariant forall v :: v in vs <==> WearFinding(stints[..i], v)
    {
      var found := CheckHistory(i, stints[i].wear);
      forall v
        ensures WearFinding(stints[..i + 1], v) <==> WearFinding(stints[..i], v) || HistoryFinding(i, stints[i].wear, v)
      {
      }
      vs := vs + found;
    }
    assert stints[..|stints|] == stints;
  }

  predicate HistoryFinding(i: nat, history: seq<Option<real>>, v: Violation) {
    || (v == WearEmpty(i) && history == [])
    || (v.WearRange? && v.i == i && v.j < |history| && BadRange(history[v.j]))
    || (v.WearMonotonic? && v.i == i && v.j < |history| - 1 && Decrease(history[v.j], history[v.j + 1]))
  }

  /** One stint: an empty history is reported and nothing else looked at. */
  method CheckHistory(i: nat, history: seq<Option<real>>) returns (vs: seq<Violation>)
    ensures forall v :: v in vs <==> HistoryFinding(i, history, v)
  {
    vs := [];
    if history == [] {
      return [WearEmpty(i)];
    }
    for j := 0 to |history|
      invariant forall v :: v in vs <==> v.WearRange? && v.i == i && v.j < j && BadRange(history[v.j])
    {
      if BadRange(history[j]) {
        vs := vs + [WearRange(i, j)];
      }
    }
    ghost var ranged := vs;
    for j := 0 to |history| - 1
      invariant forall v :: v in vs <==>
                  v in ranged || (v.WearMonotonic? && v.i == i && v.j < j && Decrease(history[v.j], history[v.j + 1]))
    {
      if Decrease(history[j], history[j + 1]) {
        vs := vs + [WearMonotonic(i, j)];
      }
    }
  }

  lemma WearSilentIffClean(stints: seq<Stint>)
    ensures (forall v :: !WearFinding(stints, v)) <==> WearClean(stints)
  {
    if forall v :: !WearFinding(stints, v) {
      forall i | 0 <= i < |stints|
        ensures HistoryClean(stints[i].wear)
      {
        var history := stints[i].wear;
        assert !WearFinding(stints, WearEmpty(i));
        forall j | 0 <= j < |history| ensures !BadRange(history[j]) {
          assert !WearFinding(stints, WearRange(i, j));
        }
        forall j | 0 <= j < |history| - 1 ensures !Decrease(history[j], history[j + 1]) {
          assert !WearFinding(stints, WearMonotonic(i, j));
        }
      }
    }
  }

  predicate HistoryClean(history: seq<Option<real>>) {
    && history != []
    && (forall j :: 0 <= j < |history| ==> !BadRange(history[j]))
    && (forall j :: 0 <= j < |history| - 1 ==> !Decrease(history[j], history[j + 1]))
  }

  predicate WearClean(stints: seq<Stint>) {
    forall i :: 0 <= i < |stints| ==> HistoryClean(stints[i].wear)
  }

  /** Present everywhere, within 0 and 100, and sorted over all pairs of laps. */
  ghost predicate PlausibleWear(history: seq<Option<real>>) {
    && history != []
    && (forall j :: 0 <= j < |history| ==> history[j].Some? && 0.0 <= history[j].value <= 100.0)
    && (forall j, k :: 0 <= j < k < |history| ==> history[j].value <= history[k].value)
  }

  lemma {:induction false} CleanHistorySorted(history: seq<Option<real>>, j: nat, k: nat)
    requires HistoryClean(history) && j < k < |history|
    ensures history[j].Some? && history[k].Some? && history[j].value <= history[k].value
  {
    assert !BadRange(history[k]) && !BadRange(history[k - 1]);
    assert !Decrease(history[k - 1], history[k - 1 + 1]);
    if j == k - 1 {
    } else {
      CleanHistorySorted(history, j, k - 1);
    }
  }

  lemma CleanIffPlausible(history: seq<Option<real>>)
    ensures HistoryClean(history) <==> PlausibleWear(history)
  {
    if HistoryClean(history) {
      forall j | 0 <= j < |history|
        ensures history[j].Some? && 0.0 <= history[j].value <= 100.0
      {
        assert !BadRange(history[j]);
      }
      forall j, k | 0 <= j < k < |history|
        ensures history[j].value <= history[k].value
      {
        CleanHistorySorted(history, j, k);
      }
    }
  }

  // ---------------------------------------------------------------------
  // Duplicates
  // ---------------------------------------------------------------------

  /** The values that are present, in order. */
  function Present(xs: seq<Option<int>>): seq<int> {
    if xs == [] then []
    else
      var init, x := Present(xs[..|xs| - 1]), xs[|xs| - 1];
      if x.Some? then init + [x.value] else init
  }

  function Values<T>(xs: seq<T>): set<T> {
    set x | x in xs
  }

  lemma ValuesAppend<T>(xs: seq<T>, x: T)
    ensures Values(xs + [x]) == Values(xs) + {x}
  {}

  /** Entry i repeats an earlier one. */
  predicate Repeats<T(==)>(xs: seq<T>, i: nat) {
    i < |xs| && xs[i] in xs[..i]
  }

  predicate LapFinding(laps: seq<Option<int>>, v: Violation) {
    v.LapDuplicate? && Repeats(laps, v.i)
  }

  lemma NoRepeatIffDistinct<T>(xs: seq<T>)
    ensures (forall i :: 0 <= i < |xs| ==> !Repeats(xs, i)) <==> forall i, j :: 0 <= i < j < |xs| ==> xs[i] != xs[j]
  {
    if forall i :: 0 <= i < |xs| ==> !Repeats(xs, i) {
      forall i, j | 0 <= i < j < |xs|
        ensures xs[i] != xs[j]
      {
        assert !Repeats(xs, j);
        assert xs[..j][i] == xs[i];
      }
    }
  }

  /** Lap numbers, a missing one counting as a value like any other. */
  method CheckPerLapInfo(laps: seq<Option<int>>) returns (vs: seq<Violation>)
    ensures |vs| == |laps| - |Values(laps)|
    ensures forall v :: v in vs <==> LapFinding(laps, v)
  {
    vs := [];
    var seen: set<Option<int>> := {};
    for i := 0 to |laps|
      invariant seen == Values(laps[..i])
      invariant |vs| == i - |seen|
      invariant forall v :: v in vs <==> v.LapDuplicate? && v.i < i && laps[v.i] in laps[..v.i]
    {
      assert laps[..i + 1] == laps[..i] + [laps[i]];
      ValuesAppend(laps[..i], laps[i]);
      if laps[i] in seen {
        assert seen + {laps[i]} == seen;
        vs := vs + [LapDuplicate(i)];
      }
      seen := seen + {laps[i]};
    }
    assert laps[..|laps|] == laps;
  }

  predicate UniqueFinding(keys: seq<Option<int>>, isPosition: bool, v: Violation) {
    && (if isPosition then v.PositionDuplicate? else v.IndexDuplicate?)
    && Repeats(keys, v.i) && keys[v.i].Some?
  }

  /** One uniqueness rule of the classification; missing values are passed over. */
  method CheckUnique(keys: seq<Option<int>>, isPosition: bool) returns (vs: seq<Violation>)
    ensures |vs| == |Present(keys)| - |Values(Present(keys))|
    ensures forall v :: v in vs <==> UniqueFinding(keys, isPosition, v)
  {
    vs := [];
    var seen: set<int> := {};
    for i := 0 to |keys|
      invariant seen == Values(Present(keys[..i]))
      invariant forall k :: k in seen <==> Some(k) in keys[..i]
      invariant |vs| == |Present(keys[..i])| - |seen|
      invariant forall v :: v in vs <==> UniqueFinding(keys, isPosition, v) && v.i < i
    {
      assert keys[..i + 1] == keys[..i] + [keys[i]];
      if keys[i].Some? {
        var value := keys[i].value;
        ValuesAppend(Present(keys[..i]), value);
        if value in seen {
          assert seen + {value} == seen;
          vs := vs + [if isPosition then PositionDuplicate(i) else IndexDuplicate(i)];
        }
        seen := seen + {value};
      }
    }
    assert keys[..|keys|] == keys;
  }

  // ---------------------------------------------------------------------
  // A whole file
  // ---------------------------------------------------------------------

  datatype SkipReason = UnknownSession | TimeTrial | RestrictedTelemetry

  /** What the metadata rule resolved. */
  datatype Session = Unresolved | TimeTrialSession | OtherSession

  /** A violation of the file, or of the k-th driver, which the report names. */
  datatype Finding = OfFile(v: Violation) | OfDriver(k: nat, v: Violation)

  type Skips = map<SkipReason, nat>

  function Skipped(m: Skips, r: SkipReason): nat {
    if r in m then m[r] else 0
  }

  function RecordSkip(m: Skips, r: SkipReason): Skips {
    m[r := Skipped(m, r) + 1]
  }

  function CountRestricted(drivers: seq<Driver>): nat {
    if drivers == [] then 0
    else CountRestricted(drivers[..|drivers| - 1]) + if drivers[|drivers| - 1].restricted then 1 else 0
  }

  function Positions(drivers: seq<Driver>): seq<Option<int>> {
    seq(|drivers|, i requires 0 <= i < |drivers| => drivers[i].position)
  }

  function Indices(drivers: seq<Driver>): seq<Option<int>> {
    seq(|drivers|, i requires 0 <= i < |drivers| => drivers[i].index)
  }

  predicate WearChecked(d: Driver, session: Session) {
    session.OtherSession? && !d.restricted
  }

  predicate DriverFinding(d: Driver, session: Session, v: Violation) {
    || StructureFinding(d.stints, v)
    || LapFinding(d.laps, v)
    || (WearChecked(d, session) && WearFinding(d.stints, v))
  }

  predicate FileFinding(drivers: seq<Driver>, session: Session, f: Finding) {
    match f
    case OfFile(v) =>
      || (v.Metadata? && session.Unresolved?)
      || UniqueFinding(Positions(drivers), true, v)
      || UniqueFinding(Indices(drivers), false, v)
    case OfDriver(k, v) =>
      k < |drivers| && DriverFinding(drivers[k], session, v)
  }

  function Tagged(k: nat, vs: seq<Violation>): (fs: seq<Finding>)
    ensures forall f :: f in fs <==> f.OfDriver? && f.k == k && f.v in vs
  {
    if vs == [] then [] else [OfDriver(k, vs[0])] + Tagged(k, vs[1..])
  }

  function FileTagged(vs: seq<Violation>): (fs: seq<Finding>)
    ensures forall f :: f in fs <==> f.OfFile? && f.v in vs
  {
    if vs == [] then [] else [OfFile(vs[0])] + FileTagged(vs[1..])
  }

  /** How many drivers are passed over for each reason. */
  ghost predicate SkipsAre(skips: Skips, session: Session, n: nat, restricted: nat) {
    && Skipped(skips, UnknownSession) == (if session.Unresolved? then n else 0)
    && Skipped(skips, TimeTrial) == (if session.TimeTrialSession? then n else 0)
    && Skipped(skips, RestrictedTelemetry) == (if session.OtherSession? then restricted else 0)
  }

  /** What each finding of the rules for one driver says, from the bare fields. */
  lemma DriverFindingsMean(stints: seq<Stint>, laps: seq<Option<int>>, v: Violation)
    ensures StructureFinding(stints, v) <==>
              || (v.StintBounds? && v.i < |stints|
                  && var s := stints[v.i]; s.start.None? || (s.end.Some? && s.end.value < s.start.value))
              || (v.StintContinuity? && v.i < |stints| - 1
                  && var a, b := stints[v.i].end, stints[v.i + 1].start;
                     a.Some? && b.Some? && b.value != a.value + 1)
    ensures WearFinding(stints, v) <==>
              || (v.WearEmpty? && v.i < |stints| && stints[v.i].wear == [])
              || (v.WearRange? && v.i < |stints| && v.j < |stints[v.i].wear|
                  && var a := stints[v.i].wear[v.j]; a.None? || a.value < 0.0 || a.value > 100.0)
              || (v.WearMonotonic? && v.i < |stints| && v.j < |stints[v.i].wear| - 1
                  && var a, b := stints[v.i].wear[v.j], stints[v.i].wear[v.j + 1];
                     a.Some? && b.Some? && b.value < a.value)
    ensures forall d: Driver, session: Session :: d.stints == stints && d.laps == laps ==>
              (DriverFinding(d, session, v) <==>
                 StructureFinding(stints, v) || LapFinding(laps, v)
                 || (session.OtherSession? && !d.restricted && WearFinding(stints, v)))
    ensures LapFinding(laps, v) <==> v.LapDuplicate? && v.i < |laps| && laps[v.i] in laps[..v.i]
  {}

  /** And of the uniqueness rules and the metadata rule, which report on the whole file. */
  lemma FileFindingsMean(drivers: seq<Driver>, session: Session, v: Violation)
    ensures FileFinding(drivers, session, OfFile(v)) <==>
              || (v.Metadata? && session.Unresolved?)
              || (v.PositionDuplicate? && v.i < |drivers| && drivers[v.i].position.Some?
                  && exists k :: 0 <= k < v.i && drivers[k].position == drivers[v.i].position)
              || (v.IndexDuplicate? && v.i < |drivers| && drivers[v.i].index.Some?
                  && exists k :: 0 <= k < v.i && drivers[k].index == drivers[v.i].index)
  {
    var ps, xs := Positions(drivers), Indices(drivers);
    assert |ps| == |xs| == |drivers|;
    assert forall k :: 0 <= k < |drivers| ==> ps[k] == drivers[k].position && xs[k] == drivers[k].index;
    if (v.PositionDuplicate? || v.IndexDuplicate?) && v.i < |drivers| {
      RepeatsIff(ps, v.i);
      RepeatsIff(xs, v.i);
    }
  }

  lemma RepeatsIff<T>(xs: seq<T>, i: nat)
    requires i < |xs|
    ensures Repeats(xs, i) <==> exists k :: 0 <= k < i && xs[k] == xs[i]
  {
    assert forall k :: 0 <= k < i ==> xs[..i][k] == xs[k];
  }

  /** The rules for one driver, and the reason if its wear is not checked. */
  method CheckDriver(d: Driver, session: Session) returns (vs: seq<Violation>, reason: Option<SkipReason>)
    ensures forall v :: v in vs <==> DriverFinding(d, session, v)
    ensures reason ==
            match session {
              case Unresolved => Some(UnknownSession)
              case TimeTrialSession => Some(TimeTrial)
              case OtherSession => if d.restricted then Some(RestrictedTelemetry) else None
            }
  {
    hide StructureFinding, LapFinding, WearFinding;
    var structure := CheckStintStructure(d.stints);
    var laps := CheckPerLapInfo(d.laps);
    vs := structure + laps;
    if session.Unresolved? {
      reason := Some(UnknownSession);
    } else if session.TimeTrialSession? {
      reason := Some(TimeTrial);
    } else if d.restricted {
      reason := Some(RestrictedTelemetry);
    } else {
      reason := None;
      var wear := CheckStintWear(d.stints);
      vs := vs + wear;
    }
  }

  /** Adding the findings of driver k to those of the file and the drivers before it. */
  lemma AddDriver(drivers: seq<Driver>, session: Session, k: nat, found: seq<Finding>, vs: seq<Violation>)
    requires k < |drivers|
    requires forall f :: f in found <==> FileFinding(drivers, session, f) && (f.OfDriver? ==> f.k < k)
    requires forall v :: v in vs <==> DriverFinding(drivers[k], session, v)
    ensures forall f :: f in found + Tagged(k, vs) <==>
              FileFinding(drivers, session, f) && (f.OfDriver? ==> f.k < k + 1)
  {
    hide DriverFinding, UniqueFinding, Positions, Indices;
  }

  /**
   checkSaveFile on the drivers of a file: it reports exactly the findings of the rules that
   apply, and every driver is either checked for wear or counted under the right skip reason.
   */
  method CheckSaveFile(drivers: seq<Driver>, session: Session)
      returns (found: seq<Finding>, checked: nat, skips: Skips)
    ensures forall f :: f in found <==> FileFinding(drivers, session, f)
    ensures SkipsAre(skips, session, |drivers|, CountRestricted(drivers))
    ensures checked + Skipped(skips, UnknownSession) + Skipped(skips, TimeTrial)
            + Skipped(skips, RestrictedTelemetry) == |drivers|
  {
    hide DriverFinding, UniqueFinding, Positions, Indices;
    var metadata := if session.Unresolved? then [Metadata] else [];
    var positions := CheckUnique(Positions(drivers), true);
    var indices := CheckUnique(Indices(drivers), false);
    found := FileTagged(metadata + positions + indices);
    checked, skips := 0, map[];
    for i := 0 to |drivers|
      invariant forall f :: f in found <==>
                  FileFinding(drivers, session, f) && (f.OfDriver? ==> f.k < i)
      invariant SkipsAre(skips, session, i, CountRestricted(drivers[..i]))
      invariant checked == if session.OtherSession? then i - CountRestricted(drivers[..i]) else 0
    {
      assert drivers[..i + 1][..i] == drivers[..i];
      var vs, reason := CheckDriver(drivers[i], session);
      if reason.Some? {
        skips := RecordSkip(skips, reason.value);
      } else {
        checked := checked + 1;
      }
      AddDriver(drivers, session, i, found, vs);
      found := found + Tagged(i, vs);
    }
    assert drivers[..|drivers|] == drivers;
  }

  // ---------------------------------------------------------------------
  // What a clean report means
  // ---------------------------------------------------------------------

  ghost predicate NoneShared(keys: seq<Option<int>>) {
    forall i, j :: 0 <= i < j < |keys| && keys[j].Some? ==> keys[i] != keys[j]
  }

  ghost predicate SoundDriver(d: Driver, session: Session) {
    && StretchesPartition(d.stints)
    && (forall i, j :: 0 <= i < j < |d.laps| ==> d.laps[i] != d.laps[j])
    && (WearChecked(d, session) ==> forall i :: 0 <= i < |d.stints| ==> PlausibleWear(d.stints[i].wear))
  }

  /** The global facts about a file. */
  ghost predicate SoundFile(drivers: seq<Driver>, session: Session) {
    && !session.Unresolved?
    && NoneShared(Positions(drivers)) && NoneShared(Indices(drivers))
    && forall k :: 0 <= k < |drivers| ==> SoundDriver(drivers[k], session)
  }

  lemma UniqueSilentIffNoneShared(keys: seq<Option<int>>, isPosition: bool)
    ensures (forall v :: !UniqueFinding(keys, isPosition, v)) <==> NoneShared(keys)
  {
    if forall v :: !UniqueFinding(keys, isPosition, v) {
      forall i, j | 0 <= i < j < |keys| && keys[j].Some?
        ensures keys[i] != keys[j]
      {
        assert !UniqueFinding(keys, isPosition, if isPosition then PositionDuplicate(j) else IndexDuplicate(j));
        assert keys[..j][i] == keys[i];
      }
    }
  }

  lemma LapsSilentIffDistinct(laps: seq<Option<int>>)
    ensures (forall v :: !LapFinding(laps, v)) <==> forall i, j :: 0 <= i < j < |laps| ==> laps[i] != laps[j]
  {
    NoRepeatIffDistinct(laps);
    if forall v :: !LapFinding(laps, v) {
      forall i | 0 <= i < |laps|
        ensures !Repeats(laps, i)
      {
        assert !LapFinding(laps, LapDuplicate(i));
      }
    }
  }

  lemma DriverSilentIffSound(d: Driver, session: Session)
    ensures (forall v :: !DriverFinding(d, session, v)) <==> SoundDriver(d, session)
  {
    StructureSilentIffClean(d.stints);
    StructureCleanIffStretchesPartition(d.stints);
    LapsSilentIffDistinct(d.laps);
    WearSilentIffClean(d.stints);
    forall i | 0 <= i < |d.stints|
      ensures HistoryClean(d.stints[i].wear) <==> PlausibleWear(d.stints[i].wear)
    {
      CleanIffPlausible(d.stints[i].wear);
    }
    hide StructureFinding, LapFinding, WearFinding, StretchesPartition, PlausibleWear, HistoryClean;
    if forall v :: !DriverFinding(d, session, v) {
      assert forall v :: !StructureFinding(d.stints, v) && !LapFinding(d.laps, v) by {
        forall v ensures !StructureFinding(d.stints, v) && !LapFinding(d.laps, v) {
          assert !DriverFinding(d, session, v);
        }
      }
      if WearChecked(d, session) {
        forall v ensures !WearFinding(d.stints, v) { assert !DriverFinding(d, session, v); }
      }
    }
  }

  /**
   The report is clean exactly when the file is sound: the session resolved, no two drivers
   share a position or an index, every driver's stints partition the laps driven wherever they
   have ends, no lap is recorded twice, and every checked driver's wear is present, in range and
   never decreases.
   */
  lemma CleanReportIffSoundFile(drivers: seq<Driver>, session: Session)
    ensures (forall f :: !FileFinding(drivers, session, f)) <==> SoundFile(drivers, session)
  {
    UniqueSilentIffNoneShared(Positions(drivers), true);
    UniqueSilentIffNoneShared(Indices(drivers), false);
    forall k | 0 <= k < |drivers|
      ensures (forall v :: !DriverFinding(drivers[k], session, v)) <==> SoundDriver(drivers[k], session)
    {
      DriverSilentIffSound(drivers[k], session);
    }
    hide UniqueFinding, DriverFinding, NoneShared, SoundDriver, Positions, Indices;
    if forall f :: !FileFinding(drivers, session, f) {
      assert !FileFinding(drivers, session, OfFile(Metadata));
      forall v
        ensures !UniqueFinding(Positions(drivers), true, v) && !UniqueFinding(Indices(drivers), false, v)
      {
        assert !FileFinding(drivers, session, OfFile(v));
      }
      forall k | 0 <= k < |drivers|
        ensures SoundDriver(drivers[k], session)
      {
        forall v ensures !DriverFinding(drivers[k], session, v) {
          assert !FileFinding(drivers, session, OfDriver(k, v));
        }
      }
    }
  }
}
