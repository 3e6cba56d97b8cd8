/**
 * The curve helpers of utils.py that the spline editor uses: the closed
 * curve test, cubic sampling of a control polyline with its arc-length
 * parameters, resampling by arc length and the closest point on a
 * polyline.
 */
module Curves {
  import opened Geometry
  import opened Wrappers
  import opened Polyline

  // ---------------------------------------------------------------------
  // _is_closed_points, _dedupe_closed
  // ---------------------------------------------------------------------

  /** Ends closer than this are always "closed" (abs_eps). */
  const CloseAbsEps: real := 5e-4

  /** Ends closer than this fraction of the bounding-box diagonal are "closed" (rel_eps). */
  const CloseRelEps: real := 1e-2

  /** Ends this close are the same point, and the last one is dropped. */
  const DuplicateEndEps: real := 1e-7

  function Xs(points: seq<Point>): seq<real> {
    seq(|points|, i requires 0 <= i < |points| => points[i].x)
  }

  function Ys(points: seq<Point>): seq<real> {
    seq(|points|, i requires 0 <= i < |points| => points[i].y)
  }

  /** Python's max() of a non-empty list. */
  function Largest(s: seq<real>): (r: real)
    requires |s| > 0
    ensures forall i :: 0 <= i < |s| ==> s[i] <= r
    ensures exists i :: 0 <= i < |s| && s[i] == r
  {
    if |s| == 1 then s[0]
    else
      var m := Largest(s[..|s| - 1]);
      assert forall i :: 0 <= i < |s| - 1 ==> s[..|s| - 1][i] == s[i];
      Max(m, Last(s))
  }

  /** Python's min() of a non-empty list. */
  function Smallest(s: seq<real>): (r: real)
    requires |s| > 0
    ensures forall i :: 0 <= i < |s| ==> r <= s[i]
    ensures exists i :: 0 <= i < |s| && s[i] == r
  {
    if |s| == 1 then s[0]
    else
      var m := Smallest(s[..|s| - 1]);
      assert forall i :: 0 <= i < |s| - 1 ==> s[..|s| - 1][i] == s[i];
      Min(m, Last(s))
  }

  /** `math.hypot(max(xs) - min(xs), max(ys) - min(ys))`: the diagonal of the bounding box. */
  function BoxDiagonal(points: seq<Point>, dist: Metric<Point>): real
    requires |points| > 0
  {
    dist(Point(Largest(Xs(points)), Largest(Ys(points))), Point(Smallest(Xs(points)), Smallest(Ys(points))))
  }

  /**
   * utils._is_closed_points: at least three points whose ends lie within
   * max(5e-4, 1e-2 * diagonal) of each other.
   */
  predicate IsClosedPoints(points: seq<Point>, dist: Metric<Point>) {
    |points| >= 3 &&
    dist(points[0], Last(points)) <= Max(CloseAbsEps, CloseRelEps * BoxDiagonal(points, dist))
  }

  /**
   * A polyline of three or more points whose ends are closer than 5e-4 is
   * closed, whatever its size; one of fewer than three points never is.
   */
  lemma NearEndsAreClosed(points: seq<Point>, dist: Metric<Point>)
    ensures |points| >= 3 && dist(points[0], Last(points)) <= CloseAbsEps ==> IsClosedPoints(points, dist)
    ensures |points| < 3 ==> !IsClosedPoints(points, dist)
  {
  }

  /**
   * utils._dedupe_closed: drops the last point exactly when the polyline is
   * closed and its ends are within 1e-7; otherwise the points unchanged.
   */
  function DedupeClosed(points: seq<Point>, dist: Metric<Point>): (r: seq<Point>)
    ensures |r| <= |points| && r == points[..|r|]
    ensures |r| < |points| <==> IsClosedPoints(points, dist) && dist(points[0], Last(points)) <= DuplicateEndEps
    ensures |r| >= |points| - 1
    ensures |points| >= 2 ==> |r| >= 2
  {
    if |points| > 0 && IsClosedPoints(points, dist) && dist(points[0], Last(points)) <= DuplicateEndEps then
      points[..|points| - 1]
    else
      assert points[..|points|] == points;
      points
  }

  /** `closed=None` means "decide with _is_closed_points". */
  function ResolveClosed(closed: Option<bool>, points: seq<Point>, dist: Metric<Point>): bool {
    match closed
    case None => IsClosedPoints(points, dist)
    case Some(c) => c
  }

  /** The control polyline a closed or open curve is built on. */
  function ControlPoints(points: seq<Point>, closed: bool, dist: Metric<Point>): seq<Point> {
    if closed then DedupeClosed(points, dist) else points
  }

  // ---------------------------------------------------------------------
  // sample_polyline
  // ---------------------------------------------------------------------

  /** The curve kinds of the spline editor; any other name samples like BEZIER. */
  datatype CurveType = Bezier | CatmullRom | CatmullRomC

  /** `max(2, resolution // max(1, seg_count))`: samples per segment. */
  function StepsPerSegment(resolution: int, segCount: nat): (steps: nat)
    ensures steps >= 2
  {
    var q := resolution / (if segCount >= 1 then segCount else 1);
    if q >= 2 then q else 2
  }

  /**
   * The cubic piece of segment i: from control point i to the next one, with
   * handles one sixth of the neighbouring chords away (a Catmull-Rom curve
   * in Bezier form). Open ends repeat the end point as their neighbour.
   */
  function BezierSegment(a: seq<Point>, closed: bool, i: nat, steps: nat): (r: seq<Point>)
    requires i < SegmentCount(|a|, closed)
    ensures |r| == steps
    ensures steps > 0 ==> r[0] == a[i]
  {
    var n := |a|;
    var i1 := if closed then (i + 1) % n else i + 1;
    var im1 := if closed then (i - 1) % n else if i >= 1 then i - 1 else 0;
    var i2 := if closed then (i + 2) % n else if i + 2 <= n - 1 then i + 2 else n - 1;
    var p0, p1, p2, p3 := a[im1], a[i], a[i1], a[i2];
    var h1 := Add(p1, Scale(Sub(p2, p0), 1.0 / 6.0));
    var h2 := Sub(p2, Scale(Sub(p3, p1), 1.0 / 6.0));
    seq(steps, s requires 0 <= s < steps => BezierCubic(p1, h1, h2, p2, (s as real) / (steps as real)))
  }

  /** The samples of the first k segments, one after another. */
  function BezierSamples(a: seq<Point>, closed: bool, steps: nat, k: nat): (r: seq<Point>)
    requires k <= SegmentCount(|a|, closed)
    ensures |r| == k * steps
  {
    if k == 0 then [] else BezierSamples(a, closed, steps, k - 1) + BezierSegment(a, closed, k - 1, steps)
  }

  /**
   * The samples sample_polyline returns for a control polyline P of at least
   * two points: P itself for the Catmull-Rom kinds, otherwise `steps`
   * samples per segment and, on an open curve, the last control point.
   */
  function CurveSamples(p: seq<Point>, closed: bool, resolution: int, kind: CurveType): seq<Point>
    requires |p| >= 2
  {
    if kind == CatmullRom || kind == CatmullRomC then p
    else
      var segs := SegmentCount(|p|, closed);
      var body := BezierSamples(p, closed, StepsPerSegment(resolution, segs), segs);
      var samples := if closed then body else body + [Last(p)];
      if samples == [] then p else samples
  }

  /** The samples up to k segments are a prefix of those up to any later k'. */
  lemma {:induction false} BezierSamplesPrefix(a: seq<Point>, closed: bool, steps: nat, k: nat, k': nat)
    requires k <= k' <= SegmentCount(|a|, closed)
    ensures BezierSamples(a, closed, steps, k) <= BezierSamples(a, closed, steps, k')
    decreases k' - k
  {
    if k < k' {
      BezierSamplesPrefix(a, closed, steps, k, k' - 1);
      assert BezierSamples(a, closed, steps, k' - 1) <= BezierSamples(a, closed, steps, k');
    }
  }

  /**
   * The cubic curve passes through every control point it starts a segment
   * at: sample i * steps is control point i.
   */
  lemma BezierInterpolates(a: seq<Point>, closed: bool, steps: nat, i: nat)
    requires steps > 0 && i < SegmentCount(|a|, closed)
    ensures i * steps < |BezierSamples(a, closed, steps, SegmentCount(|a|, closed))|
    ensures BezierSamples(a, closed, steps, SegmentCount(|a|, closed))[i * steps] == a[i]
  {
    var segs := SegmentCount(|a|, closed);
    BezierSamplesPrefix(a, closed, steps, i + 1, segs);
    var before := BezierSamples(a, closed, steps, i);
    var upto := BezierSamples(a, closed, steps, i + 1);
    assert upto == before + BezierSegment(a, closed, i, steps);
    assert |before| == i * steps;
    assert upto[|before|] == a[i];
  }

  /**
   * The ends of the sampled curve: it starts at the first control point,
   * and an open curve ends at the last one.
   */
  lemma CurveSamplesEnds(p: seq<Point>, closed: bool, resolution: int, kind: CurveType)
    requires |p| >= 2
    ensures var samples := CurveSamples(p, closed, resolution, kind);
            |samples| > 0 && samples[0] == p[0] && (!closed ==> Last(samples) == Last(p))
  {
    if kind != CatmullRom && kind != CatmullRomC {
      var segs := SegmentCount(|p|, closed);
      var steps := StepsPerSegment(resolution, segs);
      BezierInterpolates(p, closed, steps, 0);
    }
  }

  /**
   * The arc-length parameter of sample i: the length of the polyline up to
   * sample i over its total length, 0 throughout when the total is 0.
   */
  function ArcFraction(samples: seq<Point>, i: nat, dist: Metric<Point>): real
    requires i < |samples|
  {
    var lens := SegmentLengths(samples, false, dist);
    var total := Sum(lens);
    if total == 0.0 then 0.0 else PrefixSum(lens, i) / total
  }

  lemma QuotientMonotone(a: real, b: real, t: real, qa: real, qb: real)
    requires 0.0 <= a <= b && t > 0.0 && qa == a / t && qb == b / t
    ensures 0.0 <= qa <= qb
  {
  }

  /** The first sample has parameter 0. */
  lemma ArcFractionStart(samples: seq<Point>, dist: Metric<Point>)
    requires |samples| > 0
    ensures ArcFraction(samples, 0, dist) == 0.0
  {
    var lens := SegmentLengths(samples, false, dist);
    assert lens[..0] == [];
  }

  /** Parameters never decrease along the samples. */
  lemma ArcFractionMonotone(samples: seq<Point>, i: nat, j: nat, dist: Metric<Point>)
    requires i <= j < |samples|
    ensures ArcFraction(samples, i, dist) <= ArcFraction(samples, j, dist)
  {
    var lens := SegmentLengths(samples, false, dist);
    var total := Sum(lens);
    if total != 0.0 {
      PrefixSumMonotone(lens, 0, i);
      PrefixSumMonotone(lens, i, j);
      PrefixSumMonotone(lens, j, |lens|);
      PrefixSumAll(lens);
      assert lens[..0] == [];
      QuotientMonotone(PrefixSum(lens, i), PrefixSum(lens, j), total,
                       ArcFraction(samples, i, dist), ArcFraction(samples, j, dist));
    }
  }

  /** Parameters lie in [0, 1]. */
  lemma ArcFractionBounds(samples: seq<Point>, i: nat, dist: Metric<Point>)
    requires i < |samples|
    ensures 0.0 <= ArcFraction(samples, i, dist) <= 1.0
  {
    var lens := SegmentLengths(samples, false, dist);
    var total := Sum(lens);
    if total != 0.0 {
      PrefixSumMonotone(lens, 0, i);
      PrefixSumMonotone(lens, i, |lens|);
      PrefixSumAll(lens);
      assert lens[..0] == [];
      UnitRatio(PrefixSum(lens, i), total);
    }
  }

  /** A curve of positive length ends at parameter exactly 1. */
  lemma ArcFractionEnd(samples: seq<Point>, dist: Metric<Point>)
    requires |samples| > 0 && Sum(SegmentLengths(samples, false, dist)) > 0.0
    ensures ArcFraction(samples, |samples| - 1, dist) == 1.0
  {
    var lens := SegmentLengths(samples, false, dist);
    PrefixSumAll(lens);
    assert |lens| == |samples| - 1;
    WholeRatio(Sum(lens));
  }

  /** The parameter loop of sample_polyline: each cumulative length over the total. */
  method ArcLengthParams(samples: seq<Point>, dist: Metric<Point>) returns (params: seq<real>)
    requires |samples| > 0
    ensures |params| == |samples|
    ensures forall i :: 0 <= i < |samples| ==> params[i] == ArcFraction(samples, i, dist)
  {
    var lengths, total := CumulativeLengths(samples, dist);
    params := seq(|lengths|, k requires 0 <= k < |lengths| => if total == 0.0 then 0.0 else lengths[k] / total);
  }

  /** The per-segment Bezier loop of sample_polyline. */
  method BezierLoop(p: seq<Point>, closed: bool, steps: nat) returns (samples: seq<Point>)
    requires |p| >= 2 && steps >= 2
    ensures samples == BezierSamples(p, closed, steps, SegmentCount(|p|, closed))
  {
    samples := [];
    for i := 0 to SegmentCount(|p|, closed)
      invariant samples == BezierSamples(p, closed, steps, i)
    {
      var piece := BezierSegment(p, closed, i, steps);
      samples := samples + piece;
    }
  }

  /**
   * utils.sample_polyline. With fewer than two points: a copy and
   * max(1, n) zero parameters. Otherwise the curve samples of the control
   * polyline (the input, less a duplicated closing point when closed) and
   * their arc-length parameters.
   */
  method SamplePolyline(points: seq<Point>, resolution: int, kind: CurveType, closed: Option<bool>,
                        dist: Metric<Point>)
    returns (samples: seq<Point>, params: seq<real>)
    ensures |points| < 2 ==> samples == points && params == seq(if |points| == 0 then 1 else |points|, _ => 0.0)
    ensures |points| >= 2 ==>
              var c := ResolveClosed(closed, points, dist);
              samples == CurveSamples(ControlPoints(points, c, dist), c, resolution, kind)
    ensures |points| >= 2 ==>
              && |params| == |samples| > 0
              && forall i :: 0 <= i < |samples| ==> params[i] == ArcFraction(samples, i, dist)
  {
    if |points| < 2 {
      return points, seq(if |points| == 0 then 1 else |points|, _ => 0.0);
    }
    var c := ResolveClosed(closed, points, dist);
    var p := ControlPoints(points, c, dist);
    if kind == CatmullRom || kind == CatmullRomC {
      samples := p;
    } else {
      var segCount := SegmentCount(|p|, c);
      var steps := StepsPerSegment(resolution, segCount);
      samples := BezierLoop(p, c, steps);
      if !c {
        samples := samples + [Last(p)];
      }
    }
    if samples == [] {
      samples := p;
    }
    params := ArcLengthParams(samples, dist);
  }

  // ---------------------------------------------------------------------
  // resample_by_length
  // ---------------------------------------------------------------------

  /** The vertices walked by resample_by_length: P, and P[0] again when closed. */
  function WalkPoints(p: seq<Point>, closed: bool): seq<Point>
    requires |p| > 0
  {
    p + (if closed then [p[0]] else [])
  }

  /** `t * total` for output j: j / count around a loop, j / max(1, count - 1) along a path. */
  function LengthTarget(j: nat, count: nat, closed: bool, total: real): real
    requires j < count
  {
    var t := if closed then (j as real) / (count as real)
             else (j as real) / (if count >= 2 then (count - 1) as real else 1.0);
    t * total
  }

  /** The first target is the start of the polyline. */
  lemma LengthTargetStart(count: nat, closed: bool, total: real)
    requires count > 0
    ensures LengthTarget(0, count, closed, total) == 0.0
  {
    var d := if closed then count as real else if count >= 2 then (count - 1) as real else 1.0;
    ZeroQuotient(d, 0.0 / d);
  }

  /** On an open path with two or more outputs, the last target is the total length. */
  lemma LengthTargetEnd(count: nat, total: real)
    requires count >= 2
    ensures LengthTarget(count - 1, count, false, total) == total
  {
    var d := (count - 1) as real;
    SelfQuotient(d, d, d / d);
  }

  lemma ZeroQuotient(d: real, q: real)
    requires d > 0.0 && q == 0.0 / d
    ensures q == 0.0
  {
  }

  /**
   * The segment resample_by_length interpolates on: the first whose far end
   * reaches the target, the last one if none does.
   */
  function TargetSegment(lens: seq<real>, target: real): (k: nat)
    requires |lens| > 0
    ensures k < |lens|
  {
    var first := FirstReaching(lens, target, 0);
    if first < |lens| then first else |lens| - 1
  }

  /** The point at arc position `target` on segment k; its far end when the segment has length 0. */
  function PointOnSegment(pts: seq<Point>, lens: seq<real>, k: nat, target: real): Point
    requires k < |lens| == |pts| - 1
  {
    if lens[k] == 0.0 then pts[k + 1]
    else Lerp(pts[k], pts[k + 1], (target - PrefixSum(lens, k)) / lens[k])
  }

  /** The point at arc position `target` as resample_by_length finds it. */
  function LengthSample(pts: seq<Point>, lens: seq<real>, target: real): Point
    requires 0 < |lens| == |pts| - 1
  {
    PointOnSegment(pts, lens, TargetSegment(lens, target), target)
  }

  /** At the arc position where segment k starts, the sample is point k. */
  lemma PointOnSegmentAtStart(pts: seq<Point>, k: nat, target: real, dist: Metric<Point>)
    requires k < |pts| - 1
    requires PrefixSum(SegmentLengths(pts, false, dist), k) == target
    ensures PointOnSegment(pts, SegmentLengths(pts, false, dist), k, target) == pts[k]
  {
    var lens := SegmentLengths(pts, false, dist);
    if lens[k] == 0.0 {
      assert ChainLengths(pts, dist)[k] == 0.0;
    } else {
      assert (target - PrefixSum(lens, k)) / lens[k] == 0.0;
    }
  }

  /** At the arc position where segment k ends, the sample is point k + 1. */
  lemma PointOnSegmentAtEnd(pts: seq<Point>, lens: seq<real>, k: nat, target: real)
    requires k < |lens| == |pts| - 1
    requires PrefixSum(lens, k) + lens[k] == target
    ensures PointOnSegment(pts, lens, k, target) == pts[k + 1]
  {
    if lens[k] != 0.0 {
      var t := (target - PrefixSum(lens, k)) / lens[k];
      SelfQuotient(target - PrefixSum(lens, k), lens[k], t);
    }
  }

  lemma SelfQuotient(a: real, b: real, q: real)
    requires a == b && b != 0.0 && q == a / b
    ensures q == 1.0
  {
  }

  /** Sampling at arc position 0 gives the first point. */
  lemma LengthSampleAtStart(pts: seq<Point>, dist: Metric<Point>)
    requires |pts| >= 2
    ensures LengthSample(pts, SegmentLengths(pts, false, dist), 0.0) == pts[0]
  {
    var lens := SegmentLengths(pts, false, dist);
    PrefixSumStep(lens, 0);
    assert lens[..0] == [];
    assert Reaches(lens, 0, 0.0);
    FirstReachingIs(lens, 0.0, 0, 0);
    PointOnSegmentAtStart(pts, 0, 0.0, dist);
  }

  /** Once the running sum reaches the total, every later length is 0. */
  lemma {:induction false} TailIsZero(s: seq<real>, k: nat, j: nat)
    requires NonNegative(s) && k <= j < |s| && PrefixSum(s, k) == Sum(s)
    ensures s[j] == 0.0
    decreases j - k
  {
    PrefixSumStep(s, k);
    PrefixSumMonotone(s, k + 1, |s|);
    PrefixSumAll(s);
    if k < j {
      TailIsZero(s, k + 1, j);
    }
  }

  /** Points joined only by zero-length segments are one point. */
  lemma {:induction false} ZeroTailIsLast(pts: seq<Point>, k: nat, dist: Metric<Point>)
    requires k < |pts|
    requires forall j :: k <= j < |pts| - 1 ==> SegmentLengths(pts, false, dist)[j] == 0.0
    ensures pts[k] == Last(pts)
    decreases |pts| - k
  {
    if k < |pts| - 1 {
      assert SegmentLengths(pts, false, dist)[k] == 0.0;
      assert ChainLengths(pts, dist)[k] == 0.0;
      ZeroTailIsLast(pts, k + 1, dist);
    }
  }

  /** A segment whose far end reaches the total length ends at the last point. */
  lemma ReachedEndIsLast(pts: seq<Point>, k: nat, dist: Metric<Point>)
    requires k < |pts| - 1
    requires var lens := SegmentLengths(pts, false, dist);
             PrefixSum(lens, k + 1) >= Sum(lens)
    ensures PrefixSum(SegmentLengths(pts, false, dist), k + 1) == Sum(SegmentLengths(pts, false, dist))
    ensures pts[k + 1] == Last(pts)
  {
    var lens := SegmentLengths(pts, false, dist);
    PrefixSumMonotone(lens, k + 1, |lens|);
    PrefixSumAll(lens);
    forall j | k + 1 <= j < |pts| - 1
      ensures SegmentLengths(pts, false, dist)[j] == 0.0
    {
      TailIsZero(lens, k + 1, j);
    }
    ZeroTailIsLast(pts, k + 1, dist);
  }

  /** Sampling at the total length gives the last point. */
  lemma LengthSampleAtEnd(pts: seq<Point>, dist: Metric<Point>)
    requires |pts| >= 2
    ensures var lens := SegmentLengths(pts, false, dist);
            LengthSample(pts, lens, Sum(lens)) == Last(pts)
  {
    var lens := SegmentLengths(pts, false, dist);
    var total := Sum(lens);
    SampleSpecFound(lens, total);
    var k := TargetSegment(lens, total);
    ReachedEndIsLast(pts, k, dist);
    PrefixSumStep(lens, k);
    PointOnSegmentAtEnd(pts, lens, k, total);
  }

  /** A polyline of total length 0 is a single point repeated. */
  lemma ZeroLengthIsOnePoint(pts: seq<Point>, dist: Metric<Point>)
    requires |pts| > 0 && Sum(SegmentLengths(pts, false, dist)) == 0.0
    ensures Last(pts) == pts[0]
  {
    var lens := SegmentLengths(pts, false, dist);
    assert lens[..0] == [];
    forall j | 0 <= j < |pts| - 1
      ensures SegmentLengths(pts, false, dist)[j] == 0.0
    {
      TailIsZero(lens, 0, j);
    }
    ZeroTailIsLast(pts, 0, dist);
  }

  /** Running sums of a polyline's segment lengths, from 0 up to the total. */
  ghost predicate CumulativeOf(cum: seq<real>, lens: seq<real>) {
    |cum| == |lens| + 1 && forall i :: 0 <= i < |cum| ==> cum[i] == PrefixSum(lens, i)
  }

  /**
   * The cumulative-length loop shared by sample_polyline and
   * resample_by_length: cum[i] is the length of the polyline up to point i.
   */
  method CumulativeLengths(pts: seq<Point>, dist: Metric<Point>) returns (cum: seq<real>, total: real)
    requires |pts| > 0
    ensures CumulativeOf(cum, SegmentLengths(pts, false, dist))
    ensures total == Sum(SegmentLengths(pts, false, dist))
  {
    ghost var lens := SegmentLengths(pts, false, dist);
    cum := [0.0];
    total := 0.0;
    assert lens[..0] == [];
    for i := 1 to |pts|
      invariant |cum| == i
      invariant total == PrefixSum(lens, i - 1)
      invariant forall k :: 0 <= k < i ==> cum[k] == PrefixSum(lens, k)
    {
      var d := dist(pts[i], pts[i - 1]);
      PrefixSumStep(lens, i - 1);
      total := total + d;
      cum := cum + [total];
    }
    PrefixSumAll(lens);
  }

  /**
   * One output of resample_by_length: the linear search for the first
   * cumulative length not below the target, then the interpolation.
   */
  method PointAtLength(pts: seq<Point>, cum: seq<real>, target: real, ghost lens: seq<real>) returns (q: Point)
    requires 0 < |lens| == |pts| - 1 && CumulativeOf(cum, lens)
    ensures q == LengthSample(pts, lens, target)
  {
    var i := 1;
    while i < |cum| && cum[i] < target
      invariant 1 <= i <= |cum|
      invariant forall k :: 0 <= k < i - 1 ==> !Reaches(lens, k, target)
    {
      i := i + 1;
    }
    FirstReachingIs(lens, target, 0, i - 1);
    if i > |cum| - 1 {
      i := |cum| - 1;
    }
    PrefixSumStep(lens, i - 1);
    var segLen := cum[i] - cum[i - 1];
    if segLen == 0.0 {
      q := pts[i];
    } else {
      q := Lerp(pts[i - 1], pts[i], (target - cum[i - 1]) / segLen);
    }
  }

  /** The results of resample_by_length for the control polyline p. */
  ghost predicate ResampledFrom(out: seq<Point>, p: seq<Point>, count: int, closed: bool, dist: Metric<Point>)
    requires |p| > 0
  {
    var pts := WalkPoints(p, closed);
    var lens := SegmentLengths(pts, false, dist);
    var total := Sum(lens);
    && |out| == (if count > 0 then count else 0)
    && (total == 0.0 ==> forall j :: 0 <= j < |out| ==> out[j] == p[0])
    && (total != 0.0 ==>
          && |lens| > 0
          && forall j :: 0 <= j < |out| ==> out[j] == LengthSample(pts, lens, LengthTarget(j, |out|, closed, total)))
  }

  /**
   * utils.resample_by_length: [] for no points; otherwise `count` points
   * (none for a count below 1) spaced evenly by arc length along the
   * control polyline, round the loop when closed.
   */
  method ResampleByLength(points: seq<Point>, count: int, closed: Option<bool>, dist: Metric<Point>)
    returns (out: seq<Point>)
    ensures points == [] ==> out == []
    ensures points != [] ==>
              var c := ResolveClosed(closed, points, dist);
              ResampledFrom(out, ControlPoints(points, c, dist), count, c, dist)
  {
    if |points| == 0 {
      return [];
    }
    var c := ResolveClosed(closed, points, dist);
    var p := ControlPoints(points, c, dist);
    var pts := WalkPoints(p, c);
    var cum, total := CumulativeLengths(pts, dist);
    ghost var lens := SegmentLengths(pts, false, dist);
    var m := if count > 0 then count else 0;
    if total == 0.0 {
      return seq(m, _ => p[0]);
    }
    assert |lens| > 0;
    out := SampleAtTargets(pts, cum, m, c, total, lens);
  }

  /** The output loop of resample_by_length, once the total length is known to be non-zero. */
  method SampleAtTargets(pts: seq<Point>, cum: seq<real>, m: nat, closed: bool, total: real, ghost lens: seq<real>)
    returns (out: seq<Point>)
    requires 0 < |lens| == |pts| - 1 && CumulativeOf(cum, lens)
    ensures |out| == m
    ensures forall j :: 0 <= j < m ==> out[j] == LengthSample(pts, lens, LengthTarget(j, m, closed, total))
  {
    out := [];
    for j := 0 to m
      invariant |out| == j
      invariant forall i :: 0 <= i < j ==> out[i] == LengthSample(pts, lens, LengthTarget(i, m, closed, total))
    {
      var q := PointAtLength(pts, cum, LengthTarget(j, m, closed, total), lens);
      out := out + [q];
    }
  }

  /** On an open path the first output is the first point. */
  lemma OpenResampleStart(points: seq<Point>, count: int, out: seq<Point>, dist: Metric<Point>)
    requires |points| > 0 && count >= 1
    requires ResampledFrom(out, points, count, false, dist)
    ensures out[0] == points[0]
  {
    var pts := WalkPoints(points, false);
    assert pts == points;
    var total := Sum(SegmentLengths(pts, false, dist));
    if total != 0.0 {
      LengthTargetStart(count, false, total);
      LengthSampleAtStart(pts, dist);
    }
  }

  /** On an open path with two or more outputs the last output is the last point. */
  lemma OpenResampleEnd(points: seq<Point>, count: int, out: seq<Point>, dist: Metric<Point>)
    requires |points| > 0 && count >= 2
    requires ResampledFrom(out, points, count, false, dist)
    ensures out[count - 1] == Last(points)
  {
    var pts := WalkPoints(points, false);
    assert pts == points;
    var total := Sum(SegmentLengths(pts, false, dist));
    if total != 0.0 {
      LengthTargetEnd(count, total);
      LengthSampleAtEnd(pts, dist);
    } else {
      ZeroLengthIsOnePoint(pts, dist);
    }
  }

  // ---------------------------------------------------------------------
  // closest_point_on_polyline
  // ---------------------------------------------------------------------

  /** The starting "best" squared distance (1e20); a segment must beat it. */
  const FarAway: real := 1e20

  /** `(len(samples) - 1) + (1 if closed else 0)`. */
  function ClosestSegCount(n: nat, closed: bool): nat
    requires n > 0
  {
    (n - 1) + (if closed then 1 else 0)
  }

  /** The far end of segment s. */
  function SegEnd(n: nat, s: nat, closed: bool): nat
    requires 0 < n && s < ClosestSegCount(n, closed)
  {
    if closed then (s + 1) % n else s + 1
  }

  /** The parameter of the projection of p onto segment a-b, clamped to [0, 1]; 0 on a degenerate segment. */
  function ProjParam(a: Point, b: Point, p: Point): (t: real)
    ensures 0.0 <= t <= 1.0
  {
    var ab2 := SqDist(b, a);
    if ab2 == 0.0 then 0.0 else Max(0.0, Min(1.0, Dot(Sub(p, a), Sub(b, a)) / ab2))
  }

  /** The point of segment a-b nearest to p along the clamped projection. */
  function ProjPoint(a: Point, b: Point, p: Point): Point {
    if SqDist(b, a) == 0.0 then a else Add(a, Scale(Sub(b, a), ProjParam(a, b, p)))
  }

  /** The squared distance from p to segment s of the samples. */
  function SegD2(samples: seq<Point>, closed: bool, s: nat, p: Point): real
    requires 0 < |samples| && s < ClosestSegCount(|samples|, closed)
  {
    var a := samples[s];
    var b := samples[SegEnd(|samples|, s, closed)];
    SqDist(p, ProjPoint(a, b, p))
  }

  /**
   * The search result: segment `index` is closest to p (no segment is
   * nearer) and comes first among the closest; it is nearer than 1e20.
   */
  ghost predicate IsFirstClosest(samples: seq<Point>, closed: bool, p: Point, index: nat)
    requires 0 < |samples|
  {
    var segs := ClosestSegCount(|samples|, closed);
    && index < segs
    && SegD2(samples, closed, index, p) < FarAway
    && (forall s :: 0 <= s < segs ==> SegD2(samples, closed, index, p) <= SegD2(samples, closed, s, p))
    && (forall s :: 0 <= s < index ==> SegD2(samples, closed, index, p) < SegD2(samples, closed, s, p))
  }

  /**
   * utils.closest_point_on_polyline: (0, p, 0) for no samples. Otherwise the
   * first segment nearest to p, with the projected point and its parameter
   * in [0, 1]; (0, samples[0], 0) when no segment is nearer than 1e20 in
   * squared distance (for one open sample, which has no segment).
   */
  method ClosestPointOnPolyline(samples: seq<Point>, p: Point, closed: bool)
    returns (index: nat, point: Point, t: real)
    ensures samples == [] ==> index == 0 && point == p && t == 0.0
    ensures samples != [] ==> index < |samples| && 0.0 <= t <= 1.0
    ensures samples != [] && (exists s :: 0 <= s < ClosestSegCount(|samples|, closed) &&
                                          SegD2(samples, closed, s, p) < FarAway) ==>
              && IsFirstClosest(samples, closed, p, index)
              && var a := samples[index];
                 var b := samples[SegEnd(|samples|, index, closed)];
                 point == ProjPoint(a, b, p) && t == ProjParam(a, b, p)
    ensures samples != [] && (forall s :: 0 <= s < ClosestSegCount(|samples|, closed) ==>
                                          SegD2(samples, closed, s, p) >= FarAway) ==>
              index == 0 && point == samples[0] && t == 0.0
  {
    if |samples| == 0 {
      return 0, p, 0.0;
    }
    var bestDist := FarAway;
    point := samples[0];
    t := 0.0;
    index := 0;
    var segCount := ClosestSegCount(|samples|, closed);
    for s := 0 to segCount
      invariant index < |samples| && 0.0 <= t <= 1.0
      invariant bestDist <= FarAway
      invariant bestDist == FarAway ==> index == 0 && point == samples[0] && t == 0.0
      invariant bestDist == FarAway ==> forall k :: 0 <= k < s ==> SegD2(samples, closed, k, p) >= FarAway
      invariant bestDist < FarAway ==>
                  && index < s
                  && bestDist == SegD2(samples, closed, index, p)
                  && point == ProjPoint(samples[index], samples[SegEnd(|samples|, index, closed)], p)
                  && t == ProjParam(samples[index], samples[SegEnd(|samples|, index, closed)], p)
                  && (forall k :: 0 <= k < s ==> bestDist <= SegD2(samples, closed, k, p))
                  && (forall k :: 0 <= k < index ==> bestDist < SegD2(samples, closed, k, p))
    {
      var i0 := s;
      var i1 := if closed then (s + 1) % |samples| else s + 1;
      var a := samples[i0];
      var b := samples[i1];
      var ab := Sub(b, a);
      var ab2 := Dot(ab, ab);
      var proj, ts;
      if ab2 == 0.0 {
        proj := a;
        ts := 0.0;
      } else {
        ts := Max(0.0, Min(1.0, Dot(Sub(p, a), ab) / ab2));
        proj := Add(a, Scale(ab, ts));
      }
      var d2 := SqDist(p, proj);
      assert d2 == SegD2(samples, closed, s, p);
      if d2 < bestDist {
        bestDist := d2;
        point := proj;
        t := ts;
        index := i0;
      }
    }
  }
}
