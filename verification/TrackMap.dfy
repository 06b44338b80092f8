/**
 The track map generator of lib/track_map_generator.py: the coverage test, binning with
 averaging, and the projection onto the canvas, with coordinates as reals.
 */
module TrackMap {
  const NUM_BINS := 800
  const SVG_WIDTH := 1000.0
  const SVG_HEIGHT := 600.0
  const SVG_PADDING := 40.0

  /** A collected point; `_try_add_point` only keeps positive lap distances. */
  datatype Sample = Sample(dist: real, x: real, z: real)

  datatype Point = Point(x: real, z: real)

  predicate Collected(samples: seq<Sample>) {
    forall i :: 0 <= i < |samples| ==> samples[i].dist > 0.0
  }

  /** min(int(dist / bin_size), num_bins - 1), for a positive distance. */
  function BinOf(dist: real, trackLen: real): (b: nat)
    requires dist > 0.0 && trackLen > 0.0
    ensures b < NUM_BINS
  {
    var binSize := trackLen / NUM_BINS as real;
    PositiveQuotient(dist, binSize);
    var b := (dist / binSize).Floor;
    if b < NUM_BINS - 1 then b else NUM_BINS - 1
  }

  lemma PositiveQuotient(a: real, b: real)
    requires a > 0.0 && b > 0.0
    ensures a / b > 0.0
  {}

  /** Bins cut the track into equal stretches; the last one also takes everything beyond the end. */
  lemma BinHoldsItsStretch(dist: real, trackLen: real)
    requires dist > 0.0 && trackLen > 0.0
    ensures var b, binSize := BinOf(dist, trackLen), trackLen / NUM_BINS as real;
            && b as real * binSize <= dist
            && (b < NUM_BINS - 1 ==> dist < (b + 1) as real * binSize)
  {
    var b, binSize := BinOf(dist, trackLen), trackLen / NUM_BINS as real;
    QuotientBounds(dist, binSize, b as real, (b + 1) as real);
  }

  lemma QuotientBounds(a: real, size: real, lo: real, hi: real)
    requires size > 0.0
    ensures lo <= a / size ==> lo * size <= a
    ensures a / size < hi ==> a < hi * size
  {}

  // ---------------------------------------------------------------------
  // Coverage
  // ---------------------------------------------------------------------

  function Filled(samples: seq<Sample>, trackLen: real): set<nat>
    requires Collected(samples) && trackLen > 0.0
  {
    set i | 0 <= i < |samples| :: BinOf(samples[i].dist, trackLen)
  }

  function AllBins(n: nat): set<nat> {
    if n == 0 then {} else AllBins(n - 1) + {n - 1}
  }

  lemma {:induction false} AllBinsMembers(n: nat)
    ensures forall b: nat :: b in AllBins(n) <==> b < n
    ensures |AllBins(n)| == n
  {
    if n == 0 {
    } else {
      AllBinsMembers(n - 1);
      var rest, all := AllBins(n - 1), AllBins(n);
      hide AllBins;
      assert all == rest + {n - 1} && n - 1 !in rest;
    }
  }

  lemma SubsetSize<T>(a: set<T>, b: set<T>)
    requires a <= b
    ensures |a| <= |b|
    ensures |a| == |b| <==> a == b
  {
    assert b == a + (b - a);
    assert |b| == |a| + |b - a|;
  }

  lemma {:induction false} FilledAtMost(samples: seq<Sample>, trackLen: real)
    requires Collected(samples) && trackLen > 0.0
    ensures |Filled(samples, trackLen)| <= |samples|
  {
    if samples == [] {
    } else {
      var init, b := samples[..|samples| - 1], BinOf(samples[|samples| - 1].dist, trackLen);
      FilledAtMost(init, trackLen);
      FilledAppend(samples, trackLen);
    }
  }

  lemma FilledAppend(samples: seq<Sample>, trackLen: real)
    requires Collected(samples) && trackLen > 0.0 && samples != []
    ensures Filled(samples, trackLen) ==
            Filled(samples[..|samples| - 1], trackLen) + {BinOf(samples[|samples| - 1].dist, trackLen)}
  {}

  /** The guard of generate_if_ready: enough points, then every bin hit. */
  method Ready(samples: seq<Sample>, trackLen: real) returns (ready: bool)
    requires Collected(samples) && trackLen > 0.0
    ensures ready <==> forall b: nat :: b < NUM_BINS ==> b in Filled(samples, trackLen)
  {
    CoverageIffAllBins(samples, trackLen);
    if |samples| < NUM_BINS {
      return false;
    }
    var filled: set<nat> := {};
    for i := 0 to |samples|
      invariant filled == Filled(samples[..i], trackLen)
    {
      assert samples[..i + 1][..i] == samples[..i];
      FilledAppend(samples[..i + 1], trackLen);
      filled := filled + {BinOf(samples[i].dist, trackLen)};
    }
    assert samples[..|samples|] == samples;
    FilledInRange(samples, trackLen);
    var coverage := |filled| as real / NUM_BINS as real;
    ready := !(coverage < 1.0);
  }

  lemma FilledInRange(samples: seq<Sample>, trackLen: real)
    requires Collected(samples) && trackLen > 0.0
    ensures Filled(samples, trackLen) <= AllBins(NUM_BINS)
    ensures |Filled(samples, trackLen)| <= NUM_BINS
    ensures |Filled(samples, trackLen)| == NUM_BINS <==> Filled(samples, trackLen) == AllBins(NUM_BINS)
  {
    AllBinsMembers(NUM_BINS);
    SubsetSize(Filled(samples, trackLen), AllBins(NUM_BINS));
  }

  /** All bins hit means at least as many points as bins: the point-count guard changes nothing. */
  lemma CoverageIffAllBins(samples: seq<Sample>, trackLen: real)
    requires Collected(samples) && trackLen > 0.0
    ensures |Filled(samples, trackLen)| == NUM_BINS <==>
            forall b: nat :: b < NUM_BINS ==> b in Filled(samples, trackLen)
    ensures |Filled(samples, trackLen)| == NUM_BINS ==> |samples| >= NUM_BINS
  {
    AllBinsMembers(NUM_BINS);
    FilledInRange(samples, trackLen);
    FilledAtMost(samples, trackLen);
    hide AllBins;
    if forall b: nat :: b < NUM_BINS ==> b in Filled(samples, trackLen) {
      assert Filled(samples, trackLen) == AllBins(NUM_BINS);
    }
  }

  // ---------------------------------------------------------------------
  // Averaging
  // ---------------------------------------------------------------------

  /** Sum of x, sum of z and number of points. */
  datatype Acc = Acc(sx: real, sz: real, n: nat)

  /** What the points of one bin add up to. */
  function BinTotal(samples: seq<Sample>, trackLen: real, b: nat): Acc
    requires Collected(samples) && trackLen > 0.0
  {
    if samples == [] then Acc(0.0, 0.0, 0)
    else
      var t, s := BinTotal(samples[..|samples| - 1], trackLen, b), samples[|samples| - 1];
      if BinOf(s.dist, trackLen) == b then Acc(t.sx + s.x, t.sz + s.z, t.n + 1) else t
  }

  /** No sample adds up to nothing, and each one more adds its x, its z and itself to its own bin. */
  lemma BinTotalStep(samples: seq<Sample>, s: Sample, trackLen: real, b: nat)
    requires Collected(samples) && s.dist > 0.0 && trackLen > 0.0
    ensures BinTotal([], trackLen, b) == Acc(0.0, 0.0, 0)
    ensures var t, t' := BinTotal(samples, trackLen, b), BinTotal(samples + [s], trackLen, b);
            if BinOf(s.dist, trackLen) == b then t'.sx == t.sx + s.x && t'.sz == t.sz + s.z && t'.n == t.n + 1
            else t' == t
  {
    assert (samples + [s])[..|samples|] == samples;
  }

  function Mean(t: Acc): (m: Point)
    requires t.n > 0
    ensures m.x * t.n as real == t.sx && m.z * t.n as real == t.sz
  {
    Point(t.sx / t.n as real, t.sz / t.n as real)
  }

  /** The means of the nonempty bins among the first n, in bin order. */
  function Means(samples: seq<Sample>, trackLen: real, n: nat): seq<Point>
    requires Collected(samples) && trackLen > 0.0
  {
    if n == 0 then []
    else
      var t := BinTotal(samples, trackLen, n - 1);
      Means(samples, trackLen, n - 1) + if t.n > 0 then [Mean(t)] else []
  }

  lemma {:induction false} TotalIffFilled(samples: seq<Sample>, trackLen: real, b: nat)
    requires Collected(samples) && trackLen > 0.0
    ensures BinTotal(samples, trackLen, b).n > 0 <==> b in Filled(samples, trackLen)
  {
    if samples == [] {
    } else {
      TotalIffFilled(samples[..|samples| - 1], trackLen, b);
      FilledAppend(samples, trackLen);
    }
  }

  lemma {:induction false} MeansFull(samples: seq<Sample>, trackLen: real, n: nat)
    requires Collected(samples) && trackLen > 0.0
    ensures |Means(samples, trackLen, n)| <= n
    ensures |Means(samples, trackLen, n)| == n <==> forall b: nat :: b < n ==> b in Filled(samples, trackLen)
    ensures |Means(samples, trackLen, n)| == n ==>
              forall b: nat :: b < n ==>
                && BinTotal(samples, trackLen, b).n > 0
                && Means(samples, trackLen, n)[b] == Mean(BinTotal(samples, trackLen, b))
  {
    if n == 0 {
    } else {
      MeansFull(samples, trackLen, n - 1);
      TotalIffFilled(samples, trackLen, n - 1);
    }
  }

  /**
   The coverage test passes exactly when binning yields all 800 points; then point b is the
   exact mean of the points collected in bin b.
   */
  lemma ReadyIffEveryBinAveraged(samples: seq<Sample>, trackLen: real)
    requires Collected(samples) && trackLen > 0.0
    ensures var out := Means(samples, trackLen, NUM_BINS);
            && (|out| == NUM_BINS <==> |samples| >= NUM_BINS && |Filled(samples, trackLen)| == NUM_BINS)
            && (|out| == NUM_BINS ==> forall b: nat :: b < NUM_BINS ==>
                  var t := BinTotal(samples, trackLen, b);
                  t.n > 0 && out[b].x * t.n as real == t.sx && out[b].z * t.n as real == t.sz)
  {
    CoverageIffAllBins(samples, trackLen);
    MeansFull(samples, trackLen, NUM_BINS);
  }

  /** The accumulating dictionary, read out in key order. */
  method BinAndAverage(samples: seq<Sample>, trackLen: real) returns (out: seq<Point>)
    requires Collected(samples) && trackLen > 0.0
    ensures out == Means(samples, trackLen, NUM_BINS)
  {
    var bins: map<nat, Acc> := map[];
    for i := 0 to |samples|
      invariant forall b: nat ::
                  (b in bins <==> BinTotal(samples[..i], trackLen, b).n > 0)
                  && (b in bins ==> bins[b] == BinTotal(samples[..i], trackLen, b))
    {
      var s := samples[i];
      var b := BinOf(s.dist, trackLen);
      assert samples[..i + 1][..i] == samples[..i];
      EmptyTotal(samples[..i], trackLen, b);
      if b in bins {
        bins := bins[b := Acc(bins[b].sx + s.x, bins[b].sz + s.z, bins[b].n + 1)];
      } else {
        bins := bins[b := Acc(s.x, s.z, 1)];
      }
    }
    assert samples[..|samples|] == samples;
    out := [];
    for b := 0 to NUM_BINS
      invariant out == Means(samples, trackLen, b)
    {
      if b in bins {
        out := out + [Mean(bins[b])];
      }
    }
  }

  lemma {:induction false} EmptyTotal(samples: seq<Sample>, trackLen: real, b: nat)
    requires Collected(samples) && trackLen > 0.0
    ensures BinTotal(samples, trackLen, b).n == 0 ==> BinTotal(samples, trackLen, b) == Acc(0.0, 0.0, 0)
  {
    if samples == [] {
    } else {
      EmptyTotal(samples[..|samples| - 1], trackLen, b);
    }
  }

  // ---------------------------------------------------------------------
  // Projection
  // ---------------------------------------------------------------------

  /** Python's round(v, 3), of which only this matters: it keeps the order and fixes whole numbers. */
  ghost predicate IsRounding(round: real -> real) {
    && (forall a: real, b: real :: a <= b ==> round(a) <= round(b))
    && (forall v: real :: v.Floor as real == v ==> round(v) == v)
  }

  function Lowest(vs: seq<real>): real
    requires vs != []
  {
    if |vs| == 1 then vs[0]
    else
      var m, v := Lowest(vs[..|vs| - 1]), vs[|vs| - 1];
      if v < m then v else m
  }

  function Highest(vs: seq<real>): real
    requires vs != []
  {
    if |vs| == 1 then vs[0]
    else
      var m, v := Highest(vs[..|vs| - 1]), vs[|vs| - 1];
      if v > m then v else m
  }

  lemma {:induction false} LowestHighestBound(vs: seq<real>)
    requires vs != []
    ensures forall i :: 0 <= i < |vs| ==> Lowest(vs) <= vs[i] <= Highest(vs)
  {
    if |vs| <= 1 {
    } else {
      LowestHighestBound(vs[..|vs| - 1]);
    }
  }

  function Xs(ps: seq<Point>): (vs: seq<real>)
    ensures |vs| == |ps| && forall i :: 0 <= i < |ps| ==> vs[i] == ps[i].x
  {
    seq(|ps|, i requires 0 <= i < |ps| => ps[i].x)
  }

  function Zs(ps: seq<Point>): (vs: seq<real>)
    ensures |vs| == |ps| && forall i :: 0 <= i < |ps| ==> vs[i] == ps[i].z
  {
    seq(|ps|, i requires 0 <= i < |ps| => ps[i].z)
  }

  /** `max - min or 1.0` */
  function Range(lo: real, hi: real): (r: real)
    ensures lo <= hi ==> r > 0.0
  {
    if hi - lo == 0.0 then 1.0 else hi - lo
  }

  function Scale(rangeX: real, rangeZ: real): real
    requires rangeX > 0.0 && rangeZ > 0.0
  {
    var byWidth, byHeight := (SVG_WIDTH - 2.0 * SVG_PADDING) / rangeX, (SVG_HEIGHT - 2.0 * SVG_PADDING) / rangeZ;
    if byHeight < byWidth then byHeight else byWidth
  }

  /** One axis: the distance from the near edge of the data, scaled and centred. */
  function Place(along: real, range: real, scale: real, canvas: real): real {
    along * scale + (SVG_PADDING + (canvas - range * scale) / 2.0)
  }

  function WorldToSvg(ps: seq<Point>, round: real -> real): (out: seq<Point>)
    ensures |out| == |ps|
  {
    if ps == [] then []
    else
      LowestHighestBound(Xs(ps));
      LowestHighestBound(Zs(ps));
      assert Lowest(Xs(ps)) <= Xs(ps)[0] <= Highest(Xs(ps)) && Lowest(Zs(ps)) <= Zs(ps)[0] <= Highest(Zs(ps));
      var minX, maxZ := Lowest(Xs(ps)), Highest(Zs(ps));
      var rangeX, rangeZ := Range(minX, Highest(Xs(ps))), Range(Lowest(Zs(ps)), maxZ);
      var scale := Scale(rangeX, rangeZ);
      seq(|ps|, i requires 0 <= i < |ps| =>
        Point(round(Place(ps[i].x - minX, rangeX, scale, SVG_WIDTH - 2.0 * SVG_PADDING)),
              round(Place(maxZ - ps[i].z, rangeZ, scale, SVG_HEIGHT - 2.0 * SVG_PADDING))))
  }

  lemma ScaleFits(rangeX: real, rangeZ: real)
    requires rangeX > 0.0 && rangeZ > 0.0
    ensures var s := Scale(rangeX, rangeZ);
            && 0.0 < s
            && rangeX * s <= SVG_WIDTH - 2.0 * SVG_PADDING
            && rangeZ * s <= SVG_HEIGHT - 2.0 * SVG_PADDING
            && (rangeX * s == SVG_WIDTH - 2.0 * SVG_PADDING || rangeZ * s == SVG_HEIGHT - 2.0 * SVG_PADDING)
  {}

  lemma PlaceInside(along: real, range: real, scale: real, canvas: real)
    requires 0.0 <= along <= range && scale >= 0.0 && range * scale <= canvas
    ensures SVG_PADDING <= Place(along, range, scale, canvas) <= SVG_PADDING + canvas
  {}

  /** The point before rounding. */
  lemma PlacedInside(ps: seq<Point>, i: nat)
    requires i < |ps|
    ensures var minX, maxX, minZ, maxZ := Lowest(Xs(ps)), Highest(Xs(ps)), Lowest(Zs(ps)), Highest(Zs(ps));
            var w, h := SVG_WIDTH - 2.0 * SVG_PADDING, SVG_HEIGHT - 2.0 * SVG_PADDING;
            && minX <= maxX && minZ <= maxZ
            && var scale := Scale(Range(minX, maxX), Range(minZ, maxZ));
               && SVG_PADDING <= Place(ps[i].x - minX, Range(minX, maxX), scale, w) <= SVG_WIDTH - SVG_PADDING
               && SVG_PADDING <= Place(maxZ - ps[i].z, Range(minZ, maxZ), scale, h) <= SVG_HEIGHT - SVG_PADDING
  {
    hide Lowest, Highest, Scale;
    LowestHighestBound(Xs(ps));
    LowestHighestBound(Zs(ps));
    var minX, maxX, minZ, maxZ := Lowest(Xs(ps)), Highest(Xs(ps)), Lowest(Zs(ps)), Highest(Zs(ps));
    assert minX <= Xs(ps)[i] <= maxX && minZ <= Zs(ps)[i] <= maxZ;
    var rangeX, rangeZ := Range(minX, maxX), Range(minZ, maxZ);
    var scale := Scale(rangeX, rangeZ);
    ScaleFits(rangeX, rangeZ);
    PlaceInside(ps[i].x - minX, rangeX, scale, SVG_WIDTH - 2.0 * SVG_PADDING);
    PlaceInside(maxZ - ps[i].z, rangeZ, scale, SVG_HEIGHT - 2.0 * SVG_PADDING);
  }

  lemma RoundedInside(round: real -> real, v: real, lo: int, hi: int)
    requires IsRounding(round) && lo as real <= v <= hi as real
    ensures lo as real <= round(v) <= hi as real
  {
    assert round(lo as real) == lo as real && round(hi as real) == hi as real;
  }

  /** Every projected point lies on the canvas inside the padding, also when the track has no width or height. */
  lemma ProjectionStaysOnCanvas(ps: seq<Point>, round: real -> real, i: nat)
    requires IsRounding(round) && i < |ps|
    ensures SVG_PADDING <= WorldToSvg(ps, round)[i].x <= SVG_WIDTH - SVG_PADDING
    ensures SVG_PADDING <= WorldToSvg(ps, round)[i].z <= SVG_HEIGHT - SVG_PADDING
  {
    PlacedInside(ps, i);
    hide Lowest, Highest, Scale, Place, Range, IsRounding;
    var minX, maxX, minZ, maxZ := Lowest(Xs(ps)), Highest(Xs(ps)), Lowest(Zs(ps)), Highest(Zs(ps));
    var scale := Scale(Range(minX, maxX), Range(minZ, maxZ));
    RoundedInside(round, Place(ps[i].x - minX, Range(minX, maxX), scale, SVG_WIDTH - 2.0 * SVG_PADDING), 40, 960);
    RoundedInside(round, Place(maxZ - ps[i].z, Range(minZ, maxZ), scale, SVG_HEIGHT - 2.0 * SVG_PADDING), 40, 560);
  }

  /** Python's round(v, 3) moves a value by at most half of the last digit. */
  ghost predicate WithinHalfDigit(round: real -> real) {
    forall v: real :: -0.0005 <= round(v) - v <= 0.0005
  }

  function Scaled(d: real, s: real): real {
    d * s
  }

  /** The gap from b to a is d, up to two roundings. */
  predicate GapNear(a: real, b: real, d: real) {
    -0.001 <= a - b - d <= 0.001
  }

  lemma PlaceGap(b: real, gap: real, range: real, s: real, canvas: real)
    ensures Place(b + gap, range, s, canvas) == Place(b, range, s, canvas) + Scaled(gap, s)
  {
    assert (b + gap) * s == b * s + gap * s;
  }

  /** Two points on one axis, rounded: their gap is the scaled gap up to both roundings. */
  lemma GapKept(a: real, b: real, gap: real, range: real, s: real, canvas: real, round: real -> real)
    requires WithinHalfDigit(round) && a == b + gap
    ensures GapNear(round(Place(a, range, s, canvas)), round(Place(b, range, s, canvas)), Scaled(gap, s))
  {
    hide Place, Scaled;
    PlaceGap(b, gap, range, s, canvas);
    var x, y := Place(a, range, s, canvas), Place(b, range, s, canvas);
    assert -0.0005 <= round(x) - x <= 0.0005 && -0.0005 <= round(y) - y <= 0.0005;
  }

  /**
   One positive factor scales every direction, and the vertical axis is turned over: up to the
   rounding of the output the shape is kept.
   */
  lemma ProjectionKeepsShape(ps: seq<Point>, round: real -> real, i: nat, j: nat)
    requires IsRounding(round) && WithinHalfDigit(round)
    requires i < |ps| && j < |ps|
    ensures var out := WorldToSvg(ps, round);
            var s := ProjectionScale(ps);
            && s > 0.0
            && GapNear(out[i].x, out[j].x, Scaled(ps[i].x - ps[j].x, s))
            && GapNear(out[i].z, out[j].z, Scaled(ps[j].z - ps[i].z, s))
  {
    hide Lowest, Highest, Scale, Range, Place, GapNear, Scaled, IsRounding, WithinHalfDigit;
    LowestHighestBound(Xs(ps));
    LowestHighestBound(Zs(ps));
    var minX, maxX, minZ, maxZ := Lowest(Xs(ps)), Highest(Xs(ps)), Lowest(Zs(ps)), Highest(Zs(ps));
    assert minX <= Xs(ps)[i] <= maxX && minZ <= Zs(ps)[i] <= maxZ;
    var rangeX, rangeZ := Range(minX, maxX), Range(minZ, maxZ);
    var s := ProjectionScale(ps);
    ScaleFits(rangeX, rangeZ);
    GapKept(ps[i].x - minX, ps[j].x - minX, ps[i].x - ps[j].x, rangeX, s, SVG_WIDTH - 2.0 * SVG_PADDING, round);
    GapKept(maxZ - ps[i].z, maxZ - ps[j].z, ps[j].z - ps[i].z, rangeZ, s, SVG_HEIGHT - 2.0 * SVG_PADDING, round);
  }

  lemma {:induction false} LowestHighestAttained(vs: seq<real>)
    requires vs != []
    ensures Lowest(vs) in vs && Highest(vs) in vs
  {
    if |vs| == 1 {
    } else {
      var init, last := vs[..|vs| - 1], vs[|vs| - 1];
      LowestHighestAttained(init);
      assert vs == init + [last];
    }
  }

  /** The two ends of one axis, rounded: they lie symmetrically on the canvas. */
  lemma EndsCentred(range: real, s: real, canvas: real, round: real -> real)
    requires WithinHalfDigit(round)
    ensures GapNear(round(Place(0.0, range, s, canvas)) + round(Place(range, range, s, canvas)), 0.0,
                    2.0 * SVG_PADDING + canvas)
  {
    var x, y := Place(0.0, range, s, canvas), Place(range, range, s, canvas);
    assert x + y == 2.0 * SVG_PADDING + canvas;
    assert -0.0005 <= round(x) - x <= 0.0005 && -0.0005 <= round(y) - y <= 0.0005;
  }

  lemma XsEnds(ps: seq<Point>, i: nat, j: nat)
    requires i < |ps| && j < |ps|
    requires forall k :: 0 <= k < |ps| ==> ps[i].x <= ps[k].x <= ps[j].x
    ensures Lowest(Xs(ps)) == ps[i].x && Highest(Xs(ps)) == ps[j].x
  {
    LowestHighestBound(Xs(ps));
    LowestHighestAttained(Xs(ps));
    hide Lowest, Highest;
    assert Xs(ps)[i] == ps[i].x && Xs(ps)[j] == ps[j].x;
  }

  lemma ZsEnds(ps: seq<Point>, i: nat, j: nat)
    requires i < |ps| && j < |ps|
    requires forall k :: 0 <= k < |ps| ==> ps[i].z <= ps[k].z <= ps[j].z
    ensures Lowest(Zs(ps)) == ps[i].z && Highest(Zs(ps)) == ps[j].z
  {
    LowestHighestBound(Zs(ps));
    LowestHighestAttained(Zs(ps));
    hide Lowest, Highest;
    assert Zs(ps)[i] == ps[i].z && Zs(ps)[j] == ps[j].z;
  }

  /** A track that is a single point: no extent in either direction, so one metre stands for it. */
  lemma PointTrack(ps: seq<Point>, round: real -> real, i: nat)
    requires IsRounding(round) && i < |ps|
    requires forall k :: 0 <= k < |ps| ==> ps[k] == ps[i]
    ensures WorldToSvg(ps, round)[i] == Point(240.0, 40.0)
  {
    XsEnds(ps, i, i);
    ZsEnds(ps, i, i);
    hide Lowest, Highest;
    assert round(240.0) == 240.0 && round(40.0) == 40.0 by {
      assert (240.0 as real).Floor as real == 240.0 && (40.0 as real).Floor as real == 40.0;
    }
    assert Scale(1.0, 1.0) == 520.0;
  }

  /** The track is centred: its extreme points are as far from one edge as from the other. */
  lemma ProjectionIsCentred(ps: seq<Point>, round: real -> real, i: nat, j: nat)
    requires IsRounding(round) && WithinHalfDigit(round)
    requires i < |ps| && j < |ps|
    ensures ps[i].x < ps[j].x && (forall k :: 0 <= k < |ps| ==> ps[i].x <= ps[k].x <= ps[j].x) ==>
              GapNear(WorldToSvg(ps, round)[i].x + WorldToSvg(ps, round)[j].x, 0.0, 1000.0)
    ensures ps[i].z < ps[j].z && (forall k :: 0 <= k < |ps| ==> ps[i].z <= ps[k].z <= ps[j].z) ==>
              GapNear(WorldToSvg(ps, round)[i].z + WorldToSvg(ps, round)[j].z, 0.0, 600.0)
  {
    hide Lowest, Highest, Scale, Place, GapNear, IsRounding, WithinHalfDigit;
    LowestHighestBound(Xs(ps));
    LowestHighestBound(Zs(ps));
    var s := ProjectionScale(ps);
    if ps[i].x < ps[j].x && forall k :: 0 <= k < |ps| ==> ps[i].x <= ps[k].x <= ps[j].x {
      XsEnds(ps, i, j);
      EndsCentred(ps[j].x - ps[i].x, s, SVG_WIDTH - 2.0 * SVG_PADDING, round);
    }
    if ps[i].z < ps[j].z && forall k :: 0 <= k < |ps| ==> ps[i].z <= ps[k].z <= ps[j].z {
      ZsEnds(ps, i, j);
      EndsCentred(ps[j].z - ps[i].z, s, SVG_HEIGHT - 2.0 * SVG_PADDING, round);
    }
  }

  function ProjectionScale(ps: seq<Point>): real
    requires ps != []
  {
    LowestHighestBound(Xs(ps));
    LowestHighestBound(Zs(ps));
    assert Lowest(Xs(ps)) <= Xs(ps)[0] <= Highest(Xs(ps)) && Lowest(Zs(ps)) <= Zs(ps)[0] <= Highest(Zs(ps));
    Scale(Range(Lowest(Xs(ps)), Highest(Xs(ps))), Range(Lowest(Zs(ps)), Highest(Zs(ps))))
  }
}
