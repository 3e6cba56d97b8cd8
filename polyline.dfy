/**
 * Sequence primitives of utils.py that work on one polyline of UV points:
 * collapsing near-duplicates with an index map, unwrapping a loop across
 * the 0/1 seam and wrapping it back, segment lengths, the spacing
 * coefficient of variation and the largest displacement.
 */
module Polyline {
  import opened Geometry

  /** The distance below which two consecutive points count as one (`eps=1e-9`). */
  const DedupEps: real := 1e-9

  function Last<T>(s: seq<T>): T
    requires |s| > 0
  {
    s[|s| - 1]
  }

  // ---------------------------------------------------------------------
  // dedup_with_map
  // ---------------------------------------------------------------------

  /**
   * The run-collapsing pass: a point is kept when no point was kept yet or
   * when it lies more than `eps` from the point kept last.
   */
  function Collapse(s: seq<Point>, eps: real, dist: Metric<Point>): (r: seq<Point>)
    ensures |r| <= |s|
    ensures |s| > 0 ==> |r| > 0 && r[0] == s[0]
    decreases |s|
  {
    if s == [] then []
    else
      var d := Collapse(s[..|s| - 1], eps, dist);
      if d == [] || dist(Last(s), Last(d)) > eps then d + [Last(s)] else d
  }

  /** Point j lies more than `eps` from point j - 1. */
  ghost predicate ApartAt(r: seq<Point>, j: nat, eps: real, dist: Metric<Point>)
    requires 0 < j < |r|
  {
    dist(r[j], r[j - 1]) > eps
  }

  /** Every point lies more than `eps` from its predecessor. */
  ghost predicate Separated(r: seq<Point>, eps: real, dist: Metric<Point>) {
    forall j :: 0 < j < |r| ==> ApartAt(r, j, eps, dist)
  }

  /** Consecutive kept points are more than `eps` apart. */
  lemma {:induction false} CollapseSeparated(s: seq<Point>, eps: real, dist: Metric<Point>)
    ensures Separated(Collapse(s, eps, dist), eps, dist)
  {
    if s != [] {
      var d := Collapse(s[..|s| - 1], eps, dist);
      CollapseSeparated(s[..|s| - 1], eps, dist);
      if d != [] && dist(Last(s), Last(d)) > eps {
        var r := d + [Last(s)];
        forall j | 0 < j < |r| ensures ApartAt(r, j, eps, dist) {
          if j < |d| {
            assert ApartAt(d, j, eps, dist);
          }
        }
      }
    }
  }

  /** Dropping the last point keeps a sequence separated. */
  lemma SeparatedPrefix(s: seq<Point>, eps: real, dist: Metric<Point>)
    requires Separated(s, eps, dist) && |s| > 0
    ensures Separated(s[..|s| - 1], eps, dist)
  {
    var p := s[..|s| - 1];
    forall j | 0 < j < |p| ensures ApartAt(p, j, eps, dist) {
      assert ApartAt(s, j, eps, dist);
    }
  }

  /** A sequence that is already separated is left as it is. */
  lemma {:induction false} SeparatedIsFixed(s: seq<Point>, eps: real, dist: Metric<Point>)
    requires Separated(s, eps, dist)
    ensures Collapse(s, eps, dist) == s
  {
    if s != [] {
      var p := s[..|s| - 1];
      SeparatedPrefix(s, eps, dist);
      SeparatedIsFixed(p, eps, dist);
      if p != [] {
        assert ApartAt(s, |s| - 1, eps, dist);
        assert Last(p) == s[|s| - 2];
      }
      assert s == p + [Last(s)];
    }
  }

  /** Collapsing twice is collapsing once. */
  lemma CollapseIdempotent(s: seq<Point>, eps: real, dist: Metric<Point>)
    ensures Collapse(Collapse(s, eps, dist), eps, dist) == Collapse(s, eps, dist)
  {
    CollapseSeparated(s, eps, dist);
    SeparatedIsFixed(Collapse(s, eps, dist), eps, dist);
  }

  /** Some entry of the index map `m` refers to `j`. */
  ghost predicate Covers(m: seq<nat>, j: nat) {
    exists i :: 0 <= i < |m| && m[i] == j
  }

  /** One more point: the collapse of a prefix grows by that point or stays. */
  lemma CollapseStep(points: seq<Point>, k: nat, eps: real, dist: Metric<Point>)
    requires k < |points|
    ensures var d := Collapse(points[..k], eps, dist);
            Collapse(points[..k + 1], eps, dist) ==
              if d == [] || dist(points[k], Last(d)) > eps then d + [points[k]] else d
  {
    assert points[..k + 1][..k] == points[..k];
  }

  /** The closed-loop test: the last kept point is back within `eps` of the first. */
  predicate ClosesOnItself(d: seq<Point>, closed: bool, eps: real, dist: Metric<Point>) {
    closed && |d| >= 2 && dist(d[0], Last(d)) <= eps
  }

  /** The points dedup_with_map (and redistribute_evenly) keep. */
  function DedupPoints(s: seq<Point>, closed: bool, eps: real, dist: Metric<Point>): (r: seq<Point>)
    ensures |r| <= |s|
    ensures |s| > 0 ==> |r| > 0 && r[0] == s[0]
  {
    var d := Collapse(s, eps, dist);
    if ClosesOnItself(d, closed, eps, dist) then d[..|d| - 1] else d
  }

  /** The kept points are separated, and a closed loop no longer repeats its start at its end. */
  lemma DedupPointsSeparated(s: seq<Point>, closed: bool, eps: real, dist: Metric<Point>)
    ensures Separated(DedupPoints(s, closed, eps, dist), eps, dist)
  {
    var d := Collapse(s, eps, dist);
    CollapseSeparated(s, eps, dist);
    if ClosesOnItself(d, closed, eps, dist) {
      SeparatedPrefix(d, eps, dist);
    }
  }

  /**
   * Deduplicating the output of a deduplication again can drop one more
   * point, and only in the closed case: the collapse changes nothing, but
   * the new last point may again lie within `eps` of the first.
   */
  lemma RededupDropsAtMostOne(s: seq<Point>, closed: bool, eps: real, dist: Metric<Point>)
    ensures var d := DedupPoints(s, closed, eps, dist);
            DedupPoints(d, closed, eps, dist) ==
              if ClosesOnItself(d, closed, eps, dist) then d[..|d| - 1] else d
  {
    var d := DedupPoints(s, closed, eps, dist);
    DedupPointsSeparated(s, closed, eps, dist);
    SeparatedIsFixed(d, eps, dist);
  }

  /**
   * Entry i of a run map, against entry i - 1: it steps by 0 or 1; it steps
   * exactly when point i lies more than `eps` from the point kept last, and
   * then point i is the newly kept point; otherwise point i lies within
   * `eps` of the point that stands for it.
   */
  ghost predicate RunStep(points: seq<Point>, kept: seq<Point>, m: seq<nat>, i: nat, eps: real, dist: Metric<Point>)
    requires 0 < i < |m| <= |points|
    requires forall k :: 0 <= k < |m| ==> m[k] < |kept|
  {
    && (m[i] == m[i - 1] || m[i] == m[i - 1] + 1)
    && (m[i] == m[i - 1] + 1 <==> dist(points[i], kept[m[i - 1]]) > eps)
    && (m[i] != m[i - 1] ==> kept[m[i]] == points[i])
    && (m[i] == m[i - 1] ==> dist(points[i], kept[m[i]]) <= eps)
  }

  /**
   * What the first loop of utils.dedup_with_map knows after |m| points: the
   * map starts at 0 on the first point, which is kept; every later entry is
   * a RunStep; the last entry is the last kept point, and every kept point
   * is referred to.
   */
  ghost predicate RunMap(points: seq<Point>, kept: seq<Point>, m: seq<nat>, eps: real, dist: Metric<Point>) {
    && |m| <= |points|
    && (|m| == 0 <==> kept == [])
    && (forall i :: 0 <= i < |m| ==> m[i] < |kept|)
    && (|m| > 0 ==> m[0] == 0 && kept[0] == points[0] && m[|m| - 1] == |kept| - 1)
    && (forall i :: 0 < i < |m| ==> RunStep(points, kept, m, i, eps, dist))
    && (forall j :: 0 <= j < |kept| ==> Covers(m, j))
  }

  /** One iteration of the first loop keeps RunMap. */
  lemma RunMapStep(points: seq<Point>, kept: seq<Point>, map0: seq<nat>, eps: real, dist: Metric<Point>)
    requires RunMap(points, kept, map0, eps, dist) && |map0| < |points|
    ensures var p := points[|map0|];
            var kept' := if kept == [] || dist(p, Last(kept)) > eps then kept + [p] else kept;
            RunMap(points, kept', map0 + [|kept'| - 1], eps, dist)
  {
    var k := |map0|;
    var p := points[k];
    var kept' := if kept == [] || dist(p, Last(kept)) > eps then kept + [p] else kept;
    var map' := map0 + [|kept'| - 1];
    forall i | 0 < i < |map'| ensures RunStep(points, kept', map', i, eps, dist) {
      if i < k {
        assert RunStep(points, kept, map0, i, eps, dist);
      }
    }
    forall j | 0 <= j < |kept'| ensures Covers(map', j) {
      if j == |kept'| - 1 {
        assert map'[k] == j;
      } else {
        assert Covers(map0, j);
        var i :| 0 <= i < |map0| && map0[i] == j;
        assert map'[i] == j;
      }
    }
  }

  /**
   * The first loop of utils.dedup_with_map: the collapsed points and, for
   * every input point, the index of the kept point that stands for it.
   */
  method CollapseWithMap(points: seq<Point>, eps: real, dist: Metric<Point>)
    returns (kept: seq<Point>, map0: seq<nat>)
    ensures kept == Collapse(points, eps, dist)
    ensures |map0| == |points|
    ensures RunMap(points, kept, map0, eps, dist)
  {
    kept := [];
    map0 := [];
    for k := 0 to |points|
      invariant kept == Collapse(points[..k], eps, dist)
      invariant |map0| == k
      invariant RunMap(points, kept, map0, eps, dist)
    {
      kept, map0 := KeepOrMerge(points, kept, map0, k, eps, dist);
    }
    assert points[..|points|] == points;
  }

  /** One turn of dedup_with_map's first loop: points[k] is kept or merged into the last kept point. */
  method KeepOrMerge(points: seq<Point>, kept: seq<Point>, map0: seq<nat>, k: nat, eps: real, dist: Metric<Point>)
    returns (kept': seq<Point>, map': seq<nat>)
    requires k < |points| && |map0| == k
    requires kept == Collapse(points[..k], eps, dist) && RunMap(points, kept, map0, eps, dist)
    ensures kept' == Collapse(points[..k + 1], eps, dist)
    ensures |map'| == k + 1
    ensures RunMap(points, kept', map', eps, dist)
  {
    CollapseStep(points, k, eps, dist);
    RunMapStep(points, kept, map0, eps, dist);
    kept' := if kept == [] || dist(points[k], Last(kept)) > eps then kept + [points[k]] else kept;
    map' := map0 + [|kept'| - 1];
  }

  /**
   * utils.dedup_with_map. `dedup` is DedupPoints; `idxMap[i]` is the index
   * of the kept point that stands for points[i]; every kept point is referred
   * to. The ghost `raw` is the map before the closed-loop remap (see
   * CollapseWithMap). If the loop closes on itself, the last kept point is
   * dropped and its references are redirected to 0.
   */
  method DedupWithMap(points: seq<Point>, closed: bool, eps: real, dist: Metric<Point>)
    returns (dedup: seq<Point>, idxMap: seq<nat>, ghost raw: seq<nat>)
    ensures dedup == DedupPoints(points, closed, eps, dist)
    ensures |idxMap| == |points| && |raw| == |points|
    ensures forall i :: 0 <= i < |points| ==> idxMap[i] < |dedup|
    ensures forall j :: 0 <= j < |dedup| ==> Covers(idxMap, j)
    ensures |points| > 0 ==> idxMap[0] == 0
    ensures var full := Collapse(points, eps, dist);
            && RunMap(points, full, raw, eps, dist)
            && (forall i :: 0 <= i < |raw| ==>
                  idxMap[i] == if ClosesOnItself(full, closed, eps, dist) && raw[i] == |full| - 1 then 0 else raw[i])
  {
    var kept, map0 := CollapseWithMap(points, eps, dist);
    raw := map0;
    if closed && |kept| >= 2 && dist(kept[0], Last(kept)) <= eps {
      var lastIdx := |kept| - 1;
      dedup := kept[..lastIdx];
      idxMap := seq(|map0|, i requires 0 <= i < |map0| => if map0[i] == lastIdx then 0 else map0[i]);
      forall j | 0 <= j < |dedup| ensures Covers(idxMap, j) {
        assert Covers(map0, j);
        var i :| 0 <= i < |map0| && map0[i] == j;
        assert idxMap[i] == j;
      }
    } else {
      dedup := kept;
      idxMap := map0;
    }
  }

  /**
   * idxMap is the index map DedupWithMap returns for these points: one
   * index of a point of DedupPoints per input point, every kept point
   * referred to, and each point sent to the kept point of its run (the run
   * closing a closed loop on its first point going to index 0).
   */
  ghost predicate DedupIndex(points: seq<Point>, closed: bool, eps: real, dist: Metric<Point>, idxMap: seq<nat>) {
    var dedup := DedupPoints(points, closed, eps, dist);
    var full := Collapse(points, eps, dist);
    && |idxMap| == |points|
    && (forall i :: 0 <= i < |points| ==> idxMap[i] < |dedup|)
    && (forall j :: 0 <= j < |dedup| ==> Covers(idxMap, j))
    && exists raw ::
         && |raw| == |points| && RunMap(points, full, raw, eps, dist)
         && forall i :: 0 <= i < |raw| ==>
              idxMap[i] == if ClosesOnItself(full, closed, eps, dist) && raw[i] == |full| - 1 then 0 else raw[i]
  }

  // ---------------------------------------------------------------------
  // unwrap_cycle01 / wrap01
  // ---------------------------------------------------------------------

  /** The correction unwrap_cycle01 adds for one step `d` along one axis. */
  function JumpCorrection(d: real): (c: int)
    ensures d > 0.5 ==> c == -1
    ensures d < -0.5 ==> c == 1
    ensures -0.5 <= d <= 0.5 ==> c == 0
  {
    if d > 0.5 then -1 else if d < -0.5 then 1 else 0
  }

  /** The accumulated U offset (`acc_u`) of point i. */
  function AccU(points: seq<Point>, i: nat): int
    requires i < |points|
  {
    if i == 0 then 0 else AccU(points, i - 1) + JumpCorrection(points[i].x - points[i - 1].x)
  }

  /** The accumulated V offset (`acc_v`) of point i. */
  function AccV(points: seq<Point>, i: nat): int
    requires i < |points|
  {
    if i == 0 then 0 else AccV(points, i - 1) + JumpCorrection(points[i].y - points[i - 1].y)
  }

  /** Point i shifted by its accumulated offsets. */
  function Unwrapped(points: seq<Point>, i: nat): Point
    requires i < |points|
  {
    Point(points[i].x + AccU(points, i) as real, points[i].y + AccV(points, i) as real)
  }

  /**
   * utils.unwrap_cycle01: the same number of points, the first kept, and
   * every later point shifted by the integer offsets accumulated so far.
   */
  method UnwrapCycle01(points: seq<Point>) returns (out: seq<Point>)
    ensures |out| == |points|
    ensures |points| > 0 ==> out[0] == points[0]
    ensures forall i :: 0 <= i < |points| ==> out[i] == Unwrapped(points, i)
  {
    if |points| == 0 {
      return points;
    }
    out := [points[0]];
    var accU := 0;
    var accV := 0;
    for i := 1 to |points|
      invariant |out| == i
      invariant accU == AccU(points, i - 1) && accV == AccV(points, i - 1)
      invariant forall k :: 0 <= k < i ==> out[k] == Unwrapped(points, k)
    {
      var du := points[i].x - points[i - 1].x;
      var dv := points[i].y - points[i - 1].y;
      if du > 0.5 {
        accU := accU - 1;
      } else if du < -0.5 {
        accU := accU + 1;
      }
      if dv > 0.5 {
        accV := accV - 1;
      } else if dv < -0.5 {
        accV := accV + 1;
      }
      out := out + [Point(points[i].x + accU as real, points[i].y + accV as real)];
    }
  }

  /** No step of more than 0.5 along either axis. */
  ghost predicate NoSeamJumps(points: seq<Point>) {
    forall i :: 0 < i < |points| ==> ShortStep(points, i)
  }

  /** The step into point i is at most 0.5 along both axes. */
  ghost predicate ShortStep(points: seq<Point>, i: nat)
    requires 0 < i < |points|
  {
    Abs(points[i].x - points[i - 1].x) <= 0.5 && Abs(points[i].y - points[i - 1].y) <= 0.5
  }

  /** With no jump across the seam the accumulated offsets stay zero. */
  lemma {:induction false} NoJumpsNoOffset(points: seq<Point>, i: nat)
    requires NoSeamJumps(points) && i < |points|
    ensures AccU(points, i) == 0 && AccV(points, i) == 0
  {
    if i > 0 {
      assert ShortStep(points, i);
      NoJumpsNoOffset(points, i - 1);
    }
  }

  /** unwrap_cycle01 returns its input unchanged when no step exceeds 0.5. */
  lemma UnwrapIdentityWithoutJumps(points: seq<Point>, out: seq<Point>)
    requires NoSeamJumps(points)
    requires |out| == |points|
    requires forall i :: 0 <= i < |points| ==> out[i] == Unwrapped(points, i)
    ensures out == points
  {
    forall i | 0 <= i < |points| ensures out[i] == points[i] {
      NoJumpsNoOffset(points, i);
    }
  }

  /**
   * After unwrapping, a step of at most 1.5 along an axis becomes a step of
   * at most 0.5: the loop is continuous where it crossed the seam.
   */
  lemma UnwrappedStepIsShort(points: seq<Point>, i: nat)
    requires 0 < i < |points|
    requires Abs(points[i].x - points[i - 1].x) <= 1.5
    ensures -0.5 <= Unwrapped(points, i).x - Unwrapped(points, i - 1).x <= 0.5
  {
  }

  /** A point moved by an integer per axis into [-0.5, 0.5] (one element of wrap01). */
  function WrapPoint(p: Point): (w: Point)
    ensures -0.5 <= w.x <= 0.5 && -0.5 <= w.y <= 0.5
    ensures (p.x - w.x).Floor as real == p.x - w.x && (p.y - w.y).Floor as real == p.y - w.y
  {
    Point(WrapCoord(p.x), WrapCoord(p.y))
  }

  /** utils.wrap01: every point shifted by integers into [-0.5, 0.5] (not [0, 1)). */
  function Wrap01(points: seq<Point>): (r: seq<Point>)
    ensures |r| == |points|
    ensures forall i :: 0 <= i < |r| ==> -0.5 <= r[i].x <= 0.5 && -0.5 <= r[i].y <= 0.5
    ensures forall i :: 0 <= i < |r| ==>
              (points[i].x - r[i].x).Floor as real == points[i].x - r[i].x &&
              (points[i].y - r[i].y).Floor as real == points[i].y - r[i].y
  {
    seq(|points|, i requires 0 <= i < |points| => WrapPoint(points[i]))
  }

  /** wrap01 is idempotent. */
  lemma Wrap01Idempotent(points: seq<Point>)
    ensures Wrap01(Wrap01(points)) == Wrap01(points)
  {
    var w := Wrap01(points);
    forall i | 0 <= i < |points| ensures Wrap01(w)[i] == w[i] {
      WrapCoordFixed(w[i].x);
      WrapCoordFixed(w[i].y);
    }
  }

  /** Away from the rounding ties, shifting a coordinate by an integer does not change its wrap. */
  lemma WrapCoordShift(c: real, n: int)
    requires c - c.Floor as real != 0.5
    ensures WrapCoord(c + n as real) == WrapCoord(c)
  {
    var f := c.Floor;
    assert (c + n as real).Floor == f + n;
  }

  /**
   * wrap01 undoes unwrap_cycle01: both leave every coordinate where it was
   * modulo 1, so away from the rounding ties the round trip gives back
   * wrap01 of the input.
   */
  lemma WrapUndoesUnwrap(points: seq<Point>, out: seq<Point>)
    requires |out| == |points|
    requires forall i :: 0 <= i < |points| ==> out[i] == Unwrapped(points, i)
    requires forall i :: 0 <= i < |points| ==>
               points[i].x - points[i].x.Floor as real != 0.5 && points[i].y - points[i].y.Floor as real != 0.5
    ensures Wrap01(out) == Wrap01(points)
  {
    forall i | 0 <= i < |points| ensures Wrap01(out)[i] == Wrap01(points)[i] {
      WrapPointShift(points[i], AccU(points, i), AccV(points, i));
      assert out[i] == Point(points[i].x + AccU(points, i) as real, points[i].y + AccV(points, i) as real);
    }
  }

  /** Away from the rounding ties, a point shifted by whole numbers wraps to where the point does. */
  lemma WrapPointShift(p: Point, u: int, v: int)
    requires p.x - p.x.Floor as real != 0.5 && p.y - p.y.Floor as real != 0.5
    ensures WrapPoint(Point(p.x + u as real, p.y + v as real)) == WrapPoint(p)
  {
    WrapCoordShift(p.x, u);
    WrapCoordShift(p.y, v);
  }

  // ---------------------------------------------------------------------
  // _segment_lengths, _spacing_cv, _max_displacement
  // ---------------------------------------------------------------------

  /** How many segments a polyline of n points has: n when closed, n - 1 when open. */
  function SegmentCount(n: nat, closed: bool): nat {
    if closed then n else if n > 0 then n - 1 else 0
  }

  /** The lengths of the segments from each point to the next, without a closing one. */
  function ChainLengths<P(==,!new)>(points: seq<P>, dist: Metric<P>): (r: seq<real>)
    ensures |r| == SegmentCount(|points|, false)
    ensures forall i :: 0 <= i < |r| ==> r[i] >= 0.0
    ensures forall i :: 0 <= i < |r| ==> (r[i] == 0.0 <==> points[i + 1] == points[i])
  {
    seq(SegmentCount(|points|, false), i requires 0 <= i < SegmentCount(|points|, false) => dist(points[i + 1], points[i]))
  }

  /**
   * utils._segment_lengths: the length of every segment, the closing one
   * from the last point back to the first included when closed. A segment
   * has length zero exactly when its two ends coincide.
   */
  function SegmentLengths<P(==,!new)>(points: seq<P>, closed: bool, dist: Metric<P>): (r: seq<real>)
    ensures |r| == SegmentCount(|points|, closed)
    ensures NonNegative(r)
    ensures forall i :: 0 <= i < |points| - 1 ==> r[i] == ChainLengths(points, dist)[i]
    ensures closed && |points| > 0 ==> r[|points| - 1] == dist(points[0], Last(points))
  {
    if closed && |points| > 0 then ChainLengths(points, dist) + [dist(points[0], Last(points))]
    else ChainLengths(points, dist)
  }

  /** The length of segment i is that of the segment from point i to point (i + 1) mod n. */
  lemma SegmentLengthAt<P(!new)>(points: seq<P>, closed: bool, i: nat, dist: Metric<P>)
    requires i < SegmentCount(|points|, closed)
    ensures SegmentLengths(points, closed, dist)[i] == dist(points[(i + 1) % |points|], points[i])
    ensures SegmentLengths(points, closed, dist)[i] == 0.0 <==> points[(i + 1) % |points|] == points[i]
  {
    NextIndex(i, |points|);
  }

  lemma NextIndex(i: nat, n: nat)
    requires i < n
    ensures (i + 1) % n == if i + 1 < n then i + 1 else 0
  {
  }

  /** Python's sum() of a list of floats. */
  function Sum(s: seq<real>): real {
    if s == [] then 0.0 else Sum(s[..|s| - 1]) + Last(s)
  }

  /** The sum of the first k entries. */
  function PrefixSum(s: seq<real>, k: nat): real
    requires k <= |s|
  {
    Sum(s[..k])
  }

  ghost predicate NonNegative(s: seq<real>) {
    forall i :: 0 <= i < |s| ==> s[i] >= 0.0
  }

  lemma PrefixSumStep(s: seq<real>, k: nat)
    requires k < |s|
    ensures PrefixSum(s, k + 1) == PrefixSum(s, k) + s[k]
  {
    assert s[..k + 1][..k] == s[..k];
  }

  lemma PrefixSumAll(s: seq<real>)
    ensures PrefixSum(s, |s|) == Sum(s)
  {
    assert s[..|s|] == s;
  }

  /** Running sums of non-negative lengths never decrease. */
  lemma {:induction false} PrefixSumMonotone(s: seq<real>, j: nat, k: nat)
    requires NonNegative(s) && j <= k <= |s|
    ensures PrefixSum(s, j) <= PrefixSum(s, k)
    decreases k - j
  {
    if j < k {
      PrefixSumStep(s, k - 1);
      PrefixSumMonotone(s, j, k - 1);
    }
  }

  /** A part between 0 and a positive whole is a share in [0, 1]. */
  lemma UnitRatio(a: real, b: real)
    requires 0.0 <= a <= b && b > 0.0
    ensures 0.0 <= a / b <= 1.0
  {
  }

  /** A nonzero whole is one whole of itself. */
  lemma WholeRatio(b: real)
    requires b != 0.0
    ensures b / b == 1.0
  {
  }

  /** Sum of squared deviations from `m` (the numerator of the variance). */
  function SumSqDev(s: seq<real>, m: real): real {
    if s == [] then 0.0 else SumSqDev(s[..|s| - 1], m) + Sq(Last(s) - m)
  }

  /**
   * The squared coefficient of variation of a list of lengths: the
   * population variance over the squared mean, 0 when the list is empty or
   * the mean is at most 1e-20.
   */
  function CvSquared(lens: seq<real>): (cv2: real)
    ensures cv2 >= 0.0
  {
    if |lens| == 0 then 0.0
    else
      var m := Sum(lens) / (|lens| as real);
      if m <= TinyLength then 0.0
      else
        SumSqDevNonNegative(lens, m);
        (SumSqDev(lens, m) / (|lens| as real)) / Sq(m)
  }

  /**
   * The square of utils._spacing_cv (standard deviation over mean of the
   * segment lengths). The square avoids the square root; see SpacingWithin.
   */
  function SpacingCvSquared(points: seq<Point>, closed: bool, dist: Metric<Point>): real {
    CvSquared(SegmentLengths(points, closed, dist))
  }

  /**
   * `_spacing_cv(points, closed) <= epsCv`: the coefficient of variation is
   * never negative, so this holds exactly when epsCv is not negative and the
   * squared coefficient is at most epsCv squared.
   */
  ghost predicate SpacingWithin(points: seq<Point>, closed: bool, epsCv: real, dist: Metric<Point>) {
    epsCv >= 0.0 && SpacingCvSquared(points, closed, dist) <= epsCv * epsCv
  }

  /** p is the product of two positive numbers, so it is positive. */
  lemma PositiveProduct(x: real, y: real, p: real)
    requires x > 0.0 && y > 0.0 && p == x * y
    ensures p > 0.0
  {
  }

  function Sq(x: real): real {
    x * x
  }

  /** A square is never negative, and zero only for zero. */
  lemma Square(d: real)
    ensures Sq(d) >= 0.0
    ensures d != 0.0 ==> Sq(d) > 0.0
  {
    if d > 0.0 {
      PositiveProduct(d, d, Sq(d));
    } else if d < 0.0 {
      PositiveProduct(-d, -d, Sq(d));
    }
  }

  lemma {:induction false} SumSqDevNonNegative(s: seq<real>, m: real)
    ensures SumSqDev(s, m) >= 0.0
  {
    if s != [] {
      SumSqDevNonNegative(s[..|s| - 1], m);
      Square(Last(s) - m);
    }
  }

  /** All entries equal to c. */
  ghost predicate AllEqual(s: seq<real>, c: real) {
    forall i :: 0 <= i < |s| ==> s[i] == c
  }

  lemma {:induction false} SumOfConstant(s: seq<real>, c: real)
    requires AllEqual(s, c)
    ensures Sum(s) == (|s| as real) * c
  {
    if s != [] {
      SumOfConstant(s[..|s| - 1], c);
    }
  }

  /** The squared deviations add up to zero exactly when every entry equals m. */
  lemma {:induction false} SumSqDevZero(s: seq<real>, m: real)
    ensures SumSqDev(s, m) == 0.0 <==> AllEqual(s, m)
  {
    if s != [] {
      var p := s[..|s| - 1];
      SumSqDevZero(p, m);
      SumSqDevNonNegative(p, m);
      var d := Last(s) - m;
      Square(d);
      assert SumSqDev(s, m) == SumSqDev(p, m) + Sq(d);
      assert AllEqual(s, m) <==> AllEqual(p, m) && Last(s) == m by {
        if AllEqual(p, m) && Last(s) == m {
          forall i | 0 <= i < |s| ensures s[i] == m {
            if i < |p| {
              assert s[i] == p[i];
            }
          }
        }
        if AllEqual(s, m) {
          forall i | 0 <= i < |p| ensures p[i] == m {
            assert p[i] == s[i];
          }
        }
      }
    }
  }

  /** Dividing a positive quantity by positive ones keeps it positive. */
  lemma PositiveQuotients(x: real, k: real, mm: real, q: real)
    requires x > 0.0 && k > 0.0 && mm > 0.0 && q == (x / k) / mm
    ensures q > 0.0
  {
  }

  /**
   * When the mean length exceeds 1e-20, the coefficient of variation is
   * zero exactly when all lengths are equal.
   */
  lemma EqualLengthsIsZeroCv(lens: seq<real>)
    requires |lens| > 0 && Sum(lens) / (|lens| as real) > TinyLength
    ensures CvSquared(lens) == 0.0 <==> AllEqual(lens, lens[0])
  {
    if AllEqual(lens, lens[0]) {
      EqualLengthsZeroCv(lens);
    } else {
      UnequalLengthsPositiveCv(lens);
    }
  }

  lemma EqualLengthsZeroCv(lens: seq<real>)
    requires |lens| > 0 && Sum(lens) / (|lens| as real) > TinyLength
    requires AllEqual(lens, lens[0])
    ensures CvSquared(lens) == 0.0
  {
    var m := Sum(lens) / (|lens| as real);
    SumOfConstant(lens, lens[0]);
    MeanOfConstant(Sum(lens), |lens| as real, lens[0]);
    assert AllEqual(lens, m);
    SumSqDevZero(lens, m);
    CvOfZeroDeviation(lens);
  }

  lemma UnequalLengthsPositiveCv(lens: seq<real>)
    requires |lens| > 0 && Sum(lens) / (|lens| as real) > TinyLength
    requires !AllEqual(lens, lens[0])
    ensures CvSquared(lens) > 0.0
  {
    var m := Sum(lens) / (|lens| as real);
    assert AllEqual(lens, m) ==> AllEqual(lens, lens[0]);
    SumSqDevZero(lens, m);
    CvOfPositiveDeviation(lens);
  }

  lemma CvOfZeroDeviation(lens: seq<real>)
    requires |lens| > 0 && Sum(lens) / (|lens| as real) > TinyLength
    requires SumSqDev(lens, Sum(lens) / (|lens| as real)) == 0.0
    ensures CvSquared(lens) == 0.0
  {
  }

  lemma CvOfPositiveDeviation(lens: seq<real>)
    requires |lens| > 0 && Sum(lens) / (|lens| as real) > TinyLength
    requires SumSqDev(lens, Sum(lens) / (|lens| as real)) != 0.0
    ensures CvSquared(lens) > 0.0
  {
    var k := |lens| as real;
    var m := Sum(lens) / k;
    SumSqDevNonNegative(lens, m);
    Square(m);
    PositiveQuotients(SumSqDev(lens, m), k, Sq(m), CvSquared(lens));
  }

  lemma MeanOfConstant(total: real, k: real, c: real)
    requires k > 0.0 && total == k * c
    ensures total / k == c
  {
  }

  /**
   * The spacing test of the convergence check: an evenly spaced polyline
   * (all segments of one length, mean above 1e-20) and only such a one has
   * coefficient of variation zero, so it passes for every non-negative
   * threshold.
   */
  lemma EvenSpacingIsZeroCv(points: seq<Point>, closed: bool, dist: Metric<Point>)
    requires var lens := SegmentLengths(points, closed, dist);
             |lens| > 0 && Sum(lens) / (|lens| as real) > TinyLength
    ensures var lens := SegmentLengths(points, closed, dist);
            SpacingCvSquared(points, closed, dist) == 0.0 <==> AllEqual(lens, lens[0])
  {
    EqualLengthsIsZeroCv(SegmentLengths(points, closed, dist));
  }

  /** The number of triples zip() yields from three lists. */
  function ZipLength(a: nat, b: nat, c: nat): nat {
    if a <= b && a <= c then a else if b <= c then b else c
  }

  /**
   * utils._max_displacement: the largest distance a movable point travels,
   * 0 when none moves. The result bounds every movable displacement and is
   * attained by one of them unless it is 0.
   */
  method MaxDisplacement(current: seq<Point>, updated: seq<Point>, movable: seq<bool>, dist: Metric<Point>)
    returns (dmax: real)
    ensures dmax >= 0.0
    ensures forall i :: 0 <= i < ZipLength(|current|, |updated|, |movable|) && movable[i] ==>
              dist(updated[i], current[i]) <= dmax
    ensures dmax == 0.0 ||
            exists i :: 0 <= i < ZipLength(|current|, |updated|, |movable|) && movable[i] &&
                        dist(updated[i], current[i]) == dmax
  {
    var n := ZipLength(|current|, |updated|, |movable|);
    dmax := 0.0;
    for i := 0 to n
      invariant dmax >= 0.0
      invariant forall k :: 0 <= k < i && movable[k] ==> dist(updated[k], current[k]) <= dmax
      invariant dmax == 0.0 || exists k :: 0 <= k < i && movable[k] && dist(updated[k], current[k]) == dmax
    {
      if !movable[i] {
        continue;
      }
      var d := dist(updated[i], current[i]);
      if d > dmax {
        dmax := d;
      }
    }
  }

  // ---------------------------------------------------------------------
  // sample_at (inside redistribute_evenly and resample_poly)
  // ---------------------------------------------------------------------

  /** The slack of the segment search (`tt - 1e-15`). */
  const ReachSlack: real := 1e-15

  /** Lengths at or below this count as zero (1e-20). */
  const TinyLength: real := 1e-20

  /** The margin that keeps an open sample off the very end (`total - 1e-12`). */
  const EndMargin: real := 1e-12

  /** The position along a segment of length `len` of a point `offset` past its start. */
  function LocalParam(len: real, offset: real): real {
    if len <= TinyLength then 0.0 else offset / len
  }

  /** The point at parameter t on segment s, which runs to the next point (cyclically). */
  function SegPoint(pts: seq<Point>, s: nat, t: real): Point
    requires s < |pts|
  {
    Lerp(pts[s], pts[(s + 1) % |pts|], t)
  }

  /** The far end of segment k lies at or beyond the target arc position. */
  ghost predicate Reaches(segs: seq<real>, k: nat, target: real)
    requires k < |segs|
  {
    PrefixSum(segs, k + 1) >= target
  }

  /**
   * The first segment from k on whose far end reaches the target, or |segs|
   * if none does.
   */
  function FirstReaching(segs: seq<real>, target: real, k: nat): (s: nat)
    requires k <= |segs|
    ensures k <= s <= |segs|
    ensures forall j :: k <= j < s ==> !Reaches(segs, j, target)
    ensures s < |segs| ==> Reaches(segs, s, target)
    decreases |segs| - k
  {
    if k == |segs| then k
    else if PrefixSum(segs, k + 1) >= target then k
    else FirstReaching(segs, target, k + 1)
  }

  /** The search result is the one index that no earlier segment beats. */
  lemma {:induction false} FirstReachingIs(segs: seq<real>, target: real, k: nat, s: nat)
    requires k <= s <= |segs|
    requires forall j :: k <= j < s ==> !Reaches(segs, j, target)
    requires s < |segs| ==> Reaches(segs, s, target)
    ensures FirstReaching(segs, target, k) == s
    decreases s - k
  {
    if k < s {
      assert !Reaches(segs, k, target);
      FirstReachingIs(segs, target, k + 1, s);
    }
  }

  /**
   * The point at arc position tt: on the first segment whose far end reaches
   * tt, at the fraction of that segment still to go; the last point if no
   * segment reaches it.
   */
  function SampleSpec(pts: seq<Point>, segs: seq<real>, tt: real): Point
    requires 0 < |pts| && |segs| <= |pts|
  {
    var s := FirstReaching(segs, tt - ReachSlack, 0);
    if s == |segs| then Last(pts) else SegPoint(pts, s, LocalParam(segs[s], tt - PrefixSum(segs, s)))
  }

  /** Sampling at arc position 0 gives the first point. */
  lemma SampleSpecAtStart(pts: seq<Point>, segs: seq<real>)
    requires 0 < |segs| <= |pts| && NonNegative(segs)
    ensures SampleSpec(pts, segs, 0.0) == pts[0]
  {
    PrefixSumStep(segs, 0);
    assert Reaches(segs, 0, 0.0 - ReachSlack);
    FirstReachingIs(segs, 0.0 - ReachSlack, 0, 0);
  }

  /** A target no further than the total length is always found on some segment. */
  lemma SampleSpecFound(segs: seq<real>, target: real)
    requires 0 < |segs| && target <= Sum(segs)
    ensures FirstReaching(segs, target, 0) < |segs|
  {
    PrefixSumAll(segs);
    assert Reaches(segs, |segs| - 1, target);
  }

  /**
   * sample_at: walks the segments with a running sum and interpolates on
   * the first one that reaches the target; falls back to the last point.
   */
  method SampleAt(pts: seq<Point>, segs: seq<real>, tt: real) returns (r: Point)
    requires 0 < |pts| && |segs| <= |pts|
    ensures r == SampleSpec(pts, segs, tt)
  {
    var target := tt - ReachSlack;
    var acc := 0.0;
    var i := 0;
    while i < |segs|
      invariant 0 <= i <= |segs|
      invariant acc == PrefixSum(segs, i)
      invariant forall j :: 0 <= j < i ==> !Reaches(segs, j, target)
    {
      var len := segs[i];
      PrefixSumStep(segs, i);
      if acc + len >= target {
        var local := if len <= TinyLength then 0.0 else (tt - acc) / len;
        FirstReachingIs(segs, target, 0, i);
        return Lerp(pts[i], pts[(i + 1) % |pts|], local);
      }
      acc := acc + len;
      i := i + 1;
    }
    FirstReachingIs(segs, target, 0, |segs|);
    return Last(pts);
  }

  /** One step of the accumulating loop: append the length of segment i and add it to the total. */
  lemma LengthsStep<P(!new)>(pts: seq<P>, closed: bool, dist: Metric<P>, i: nat, segs: seq<real>, total: real)
    requires i < SegmentCount(|pts|, closed)
    requires segs == SegmentLengths(pts, closed, dist)[..i]
    requires total == PrefixSum(SegmentLengths(pts, closed, dist), i)
    ensures var d := dist(pts[(i + 1) % |pts|], pts[i]);
            && segs + [d] == SegmentLengths(pts, closed, dist)[..i + 1]
            && total + d == PrefixSum(SegmentLengths(pts, closed, dist), i + 1)
  {
    var all := SegmentLengths(pts, closed, dist);
    SegmentLengthAt(pts, closed, i, dist);
    PrefixSumStep(all, i);
    assert all[..i + 1] == all[..i] + [all[i]];
  }

  /** The segment lengths of a polyline and their total, as the accumulating loops compute them. */
  method LengthsAndTotal<P(==,!new)>(pts: seq<P>, closed: bool, dist: Metric<P>) returns (segs: seq<real>, total: real)
    ensures segs == SegmentLengths(pts, closed, dist)
    ensures total == Sum(segs)
  {
    var n := SegmentCount(|pts|, closed);
    ghost var all := SegmentLengths(pts, closed, dist);
    segs := [];
    total := 0.0;
    for i := 0 to n
      invariant segs == all[..i]
      invariant total == PrefixSum(all, i)
    {
      var d := dist(pts[(i + 1) % |pts|], pts[i]);
      LengthsStep(pts, closed, dist, i, segs, total);
      segs := segs + [d];
      total := total + d;
    }
    assert all[..n] == all;
  }

  // ---------------------------------------------------------------------
  // redistribute_evenly
  // ---------------------------------------------------------------------

  /** Python's `a % b` on floats for b > 0: the remainder with the sign of b. */
  function FloorMod(a: real, b: real): (r: real)
    requires b > 0.0
    ensures 0.0 <= r < b
  {
    var q := (a / b).Floor;
    FloorBounds(a, b, q as real);
    a - b * (q as real)
  }

  lemma FloorBounds(a: real, b: real, q: real)
    requires b > 0.0 && q <= a / b < q + 1.0
    ensures b * q <= a < b * q + b
  {
    var x := a / b;
    assert b * x == a;
    var e := x - q;
    assert a == b * q + b * e;
    assert b * e >= 0.0;
    assert b * e < b * 1.0;
  }

  /**
   * The cases in which redistribute_evenly returns a copy of its input:
   * fewer than two points, too few points left after deduplication, or a
   * total length of at most 1e-20.
   */
  ghost predicate RedistributeCopies(points: seq<Point>, closed: bool, eps: real, dist: Metric<Point>) {
    || |points| < 2
    || var pts := DedupPoints(points, closed, eps, dist);
       || (closed && |pts| < 3)
       || (!closed && |pts| < 2)
       || Sum(SegmentLengths(pts, closed, dist)) <= TinyLength
  }

  /** The arc position sampled for output i: i steps of total/n round a closed loop. */
  function ClosedTarget(i: nat, n: nat, total: real): real
    requires n > 0 && total > 0.0
  {
    FloorMod((i as real) * (total / (n as real)), total)
  }

  lemma ClosedTargetStart(n: nat, total: real)
    requires n > 0 && total > 0.0
    ensures ClosedTarget(0, n, total) == 0.0
  {
    assert (0 as real) * (total / (n as real)) == 0.0;
    assert (0.0 / total).Floor == 0;
  }

  /** The arc position sampled for output i of an open path: i steps of total/(n-1), kept off the end. */
  function OpenTarget(i: nat, n: nat, total: real): real
    requires n > 1
  {
    Min((i as real) * (total / ((n - 1) as real)), total - EndMargin)
  }

  /** The sampling loop of a closed path: n samples, i * total / n apart, wrapped into [0, total). */
  method SampleClosedLoop(pts: seq<Point>, segs: seq<real>, total: real) returns (r: seq<Point>)
    requires 0 < |pts| && |segs| <= |pts| && total > 0.0
    ensures |r| == |pts|
    ensures forall i :: 0 <= i < |pts| ==> r[i] == SampleSpec(pts, segs, ClosedTarget(i, |pts|, total))
  {
    var n := |pts|;
    r := [];
    for i := 0 to n
      invariant |r| == i
      invariant forall k :: 0 <= k < i ==> r[k] == SampleSpec(pts, segs, ClosedTarget(k, n, total))
    {
      var tt := ClosedTarget(i, n, total);
      var p := SampleAt(pts, segs, tt);
      r := r + [p];
    }
  }

  /**
   * The sampling loop of an open path: n samples, i * total / (n - 1) apart
   * and kept 1e-12 short of the end; with preserveEnds the first and last
   * samples are the end points themselves.
   */
  method SampleOpenPath(pts: seq<Point>, segs: seq<real>, total: real, preserveEnds: bool) returns (r: seq<Point>)
    requires 2 <= |pts| && |segs| <= |pts|
    ensures |r| == |pts|
    ensures preserveEnds ==> r[0] == pts[0] && r[|pts| - 1] == pts[|pts| - 1]
    ensures forall i :: 0 <= i < |pts| && (!preserveEnds || 0 < i < |pts| - 1) ==>
              r[i] == SampleSpec(pts, segs, OpenTarget(i, |pts|, total))
  {
    var n := |pts|;
    if preserveEnds {
      r := [pts[0]];
      for i := 1 to n - 1
        invariant |r| == i && r[0] == pts[0]
        invariant forall k :: 0 < k < i ==> r[k] == SampleSpec(pts, segs, OpenTarget(k, n, total))
      {
        var tt := OpenTarget(i, n, total);
        var p := SampleAt(pts, segs, tt);
        r := r + [p];
      }
      r := r + [pts[n - 1]];
    } else {
      r := [];
      for i := 0 to n
        invariant |r| == i
        invariant forall k :: 0 <= k < i ==> r[k] == SampleSpec(pts, segs, OpenTarget(k, n, total))
      {
        var tt := OpenTarget(i, n, total);
        var p := SampleAt(pts, segs, tt);
        r := r + [p];
      }
    }
  }

  /**
   * r is pts resampled evenly along its length: output i is the point at arc
   * position i * total / n around a closed loop, or at i * total / (n - 1)
   * along an open path; with preserveEnds the two ends of an open path stay
   * exactly where they were. The first output is the first point whenever
   * the first target is 0.
   */
  ghost predicate EvenlySpread(r: seq<Point>, pts: seq<Point>, segs: seq<real>, total: real, preserveEnds: bool, closed: bool)
    requires |pts| >= 2 && |segs| <= |pts| && total > 0.0
  {
    var n := |pts|;
    && |r| == n
    && (closed ==> forall i :: 0 <= i < n ==> r[i] == SampleSpec(pts, segs, ClosedTarget(i, n, total)))
    && (!closed ==> forall i :: 0 <= i < n && (!preserveEnds || 0 < i < n - 1) ==>
                      r[i] == SampleSpec(pts, segs, OpenTarget(i, n, total)))
    && (!closed && preserveEnds ==> r[0] == pts[0] && r[n - 1] == pts[n - 1])
    && (closed || preserveEnds || total >= EndMargin ==> r[0] == pts[0])
  }

  /** The sampling half of redistribute_evenly, on points already deduplicated and measured. */
  method SpreadEvenly(pts: seq<Point>, segs: seq<real>, total: real, preserveEnds: bool, closed: bool)
    returns (r: seq<Point>)
    requires |pts| >= 2 && 0 < |segs| <= |pts| && NonNegative(segs) && total > 0.0
    ensures EvenlySpread(r, pts, segs, total, preserveEnds, closed)
  {
    var n := |pts|;
    if closed {
      r := SampleClosedLoop(pts, segs, total);
      SampleSpecAtStart(pts, segs);
      ClosedTargetStart(n, total);
    } else {
      r := SampleOpenPath(pts, segs, total, preserveEnds);
      if !preserveEnds && total >= EndMargin {
        SampleSpecAtStart(pts, segs);
        assert OpenTarget(0, n, total) == 0.0;
      }
    }
  }

  /**
   * r is what utils.redistribute_evenly returns for these points: a copy of
   * them, or the deduplicated points spread evenly along their length.
   */
  ghost predicate Redistributed(r: seq<Point>, points: seq<Point>, preserveEnds: bool, closed: bool, eps: real, dist: Metric<Point>) {
    && (RedistributeCopies(points, closed, eps, dist) ==> r == points)
    && (!RedistributeCopies(points, closed, eps, dist) ==>
          var pts := DedupPoints(points, closed, eps, dist);
          var segs := SegmentLengths(pts, closed, dist);
          EvenlySpread(r, pts, segs, Sum(segs), preserveEnds, closed))
  }

  /**
   * utils.redistribute_evenly. Unless it returns a copy of its input, the
   * result is the deduplicated points spread evenly along their length.
   */
  method RedistributeEvenly(points: seq<Point>, preserveEnds: bool, closed: bool, eps: real, dist: Metric<Point>)
    returns (r: seq<Point>)
    ensures Redistributed(r, points, preserveEnds, closed, eps, dist)
  {
    if |points| < 2 {
      return points;
    }
    var kept, _ := CollapseWithMap(points, eps, dist);
    var pts := kept;
    if closed && |pts| >= 2 && dist(pts[0], Last(pts)) <= eps {
      pts := pts[..|pts| - 1];
    }
    assert pts == DedupPoints(points, closed, eps, dist);
    var n := |pts|;
    if (closed && n < 3) || (!closed && n < 2) {
      return points;
    }
    var segs, total := LengthsAndTotal(pts, closed, dist);
    if total <= TinyLength {
      return points;
    }
    r := SpreadEvenly(pts, segs, total, preserveEnds, closed);
  }

}
