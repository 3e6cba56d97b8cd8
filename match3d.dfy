/**
 * The two operators of operators/match3d.py, path by path:
 * UV_OT_loop_match3d_ratio spaces the points of every selected UV loop so
 * that the UV distance between neighbours follows the 3D distance between
 * their vertices (resampling the UV polyline at the 3D length ratios);
 * UV_OT_loop_match3d_ratio_straight_open puts the points of every open
 * loop on the chord between its two ends at those ratios and leaves closed
 * loops alone.
 *
 * Unlike the equalize operators, every key of a path moves, the ends of
 * an open path included: the ratio fractions start at 0 and an open path
 * ends at 1, so the ends land on (or next to) where they were.
 */
module Match3d {
  import opened Geometry
  import opened Wrappers
  import opened Polyline
  import opened Topology
  import opened MeshPass
  import opened Equalize

  /** The counters execute keeps over all paths, reported at the end. */
  datatype Counts = Counts(processed: nat, movedVis: nat, skipped: nat, countOpen: nat, countClosed: nat)

  /** A path that was processed: one more processed path, of its kind, and its moved weld keys. */
  function Tally(c: Counts, closed: bool, movedCount: nat): Counts {
    c.(processed := c.processed + 1, movedVis := c.movedVis + movedCount,
       countClosed := c.countClosed + (if closed then 1 else 0),
       countOpen := c.countOpen + (if closed then 0 else 1))
  }

  /** Every key of a match3d path is written: the all-true mask. */
  function AllMovable(n: nat): (movable: seq<bool>)
    ensures |movable| == n && forall i :: 0 <= i < n ==> movable[i]
  {
    seq(n, _ => true)
  }

  // ---------------------------------------------------------------------
  // Loop type

  /**
   * `is_closed` of UV_OT_loop_match3d_ratio: the user's choice first
   * ('OPEN', 'CLOSED', or under 'AUTO' the flag of the walk), then forced
   * closed when the path has at least 3 keys that all have degree 2.
   */
  function ResolveClosed3d(kind: LoopKind, walkClosed: bool, sub: Graph, keys: seq<Key>): (closed: bool)
    ensures ClosedBy(AllDegreeTwo, sub, keys) ==> closed
    ensures kind == Closed ==> closed
    ensures !ClosedBy(AllDegreeTwo, sub, keys) && kind == Open ==> !closed
  {
    var chosen := match kind case Open => false case Closed => true case Auto => walkClosed;
    chosen || ClosedBy(AllDegreeTwo, sub, keys)
  }

  /**
   * Every path UV_OT_loop_equalize treats as closed, this operator treats
   * as closed too; under 'AUTO' the two differ only on paths the walk
   * flagged closed.
   */
  lemma ClosedWheneverEqualizeCloses(kind: LoopKind, walkClosed: bool, sub: Graph, keys: seq<Key>)
    ensures ResolveClosed(kind, sub, keys) ==> ResolveClosed3d(kind, walkClosed, sub, keys)
    ensures kind == Auto && !walkClosed ==> ResolveClosed(kind, sub, keys) == ResolveClosed3d(kind, walkClosed, sub, keys)
  {
  }

  // ---------------------------------------------------------------------
  // resample_poly

  /** `max(0.0, min(1.0, f))`. */
  function Clamp01(f: real): (r: real)
    ensures 0.0 <= r <= 1.0
    ensures 0.0 <= f <= 1.0 ==> r == f
  {
    Max(0.0, Min(1.0, f))
  }

  /**
   * The arc position sample_at looks up for fraction f of a polyline of
   * length total: `(f % 1.0) * total` taken again modulo total on a
   * closed loop, the clamped fraction times total kept 1e-12 short of the
   * end on an open path.
   */
  function ResampleTarget(f: real, closed: bool, total: real): (tt: real)
    requires total > 0.0
    ensures closed ==> 0.0 <= tt < total
    ensures !closed ==> tt <= total - EndMargin && (total >= EndMargin ==> 0.0 <= tt)
  {
    if closed then FloorMod(FloorMod(f, 1.0) * total, total)
    else Min(Clamp01(f) * total, total - EndMargin)
  }

  /**
   * A fraction in [0, 1] is that share of the length: on a closed loop
   * exactly (1 wraps round to the start), on an open path up to the
   * margin kept off the end.
   */
  lemma ResampleTargetOfFraction(f: real, closed: bool, total: real)
    requires total > 0.0 && 0.0 <= f <= 1.0
    ensures closed && f < 1.0 ==> ResampleTarget(f, closed, total) == f * total
    ensures closed && f == 1.0 ==> ResampleTarget(f, closed, total) == 0.0
    ensures !closed ==> ResampleTarget(f, closed, total) == Min(f * total, total - EndMargin)
  {
    if closed && f < 1.0 {
      ClosedShare(f, total);
    } else if closed {
      FloorModOfWhole(f);
      FloorModOfRange(0.0 * total, total);
    }
  }

  lemma ClosedShare(f: real, total: real)
    requires total > 0.0 && 0.0 <= f < 1.0
    ensures FloorMod(FloorMod(f, 1.0) * total, total) == f * total
  {
    FloorModOfRange(f, 1.0);
    PositiveProduct(1.0 - f, total, total - f * total);
    FloorModOfRange(f * total, total);
  }

  lemma FloorModOfWhole(f: real)
    requires f == 1.0
    ensures FloorMod(f, 1.0) == 0.0
  {
    assert (f / 1.0).Floor == 1;
  }

  /** A remainder of a number already in [0, b) is the number itself. */
  lemma FloorModOfRange(a: real, b: real)
    requires 0.0 <= a < b
    ensures FloorMod(a, b) == a
  {
    var q := a / b;
    assert q * b == a;
    assert q < 1.0;
    assert q.Floor == 0;
  }

  /**
   * The cases in which resample_poly returns a copy of its input: fewer
   * than 3 points on a closed loop or 2 on an open path, or a total length
   * of at most 1e-20.
   */
  predicate ResampleCopies(points: seq<Point>, closed: bool, dist: Metric<Point>) {
    || (closed && |points| < 3)
    || (!closed && |points| < 2)
    || Sum(SegmentLengths(points, closed, dist)) <= TinyLength
  }

  /**
   * What resample_poly returns: nothing for no points, a copy in the cases
   * above, otherwise one sample per fraction at its arc position.
   */
  function Resampled(points: seq<Point>, fractions: seq<real>, closed: bool, dist: Metric<Point>): seq<Point> {
    if points == [] then []
    else if ResampleCopies(points, closed, dist) then points
    else
      var segs := SegmentLengths(points, closed, dist);
      seq(|fractions|, i requires 0 <= i < |fractions| =>
            SampleSpec(points, segs, ResampleTarget(fractions[i], closed, Sum(segs))))
  }

  /** One fraction per point gives one resampled point per point, copy or not. */
  lemma ResampledKeepsCount(points: seq<Point>, fractions: seq<real>, closed: bool, dist: Metric<Point>)
    requires |fractions| == |points|
    ensures |Resampled(points, fractions, closed, dist)| == |points|
  {
  }

  /**
   * A first fraction of 0 samples the first point: always on a closed
   * loop, and on an open path at least 1e-12 long.
   */
  lemma ResampledStart(points: seq<Point>, fractions: seq<real>, closed: bool, dist: Metric<Point>)
    requires points != [] && |fractions| > 0 && fractions[0] == 0.0
    requires !closed ==> Sum(SegmentLengths(points, closed, dist)) >= EndMargin
    ensures Resampled(points, fractions, closed, dist)[0] == points[0]
  {
    if !ResampleCopies(points, closed, dist) {
      var segs := SegmentLengths(points, closed, dist);
      SampledStart(points, segs, closed);
    }
  }

  /** Sampling at the arc position of fraction 0 gives the first point. */
  lemma SampledStart(points: seq<Point>, segs: seq<real>, closed: bool)
    requires 0 < |segs| <= |points| && NonNegative(segs) && Sum(segs) > TinyLength
    requires !closed ==> Sum(segs) >= EndMargin
    ensures SampleSpec(points, segs, ResampleTarget(0.0, closed, Sum(segs))) == points[0]
  {
    TargetAtZero(closed, Sum(segs));
    SampleSpecAtStart(points, segs);
  }

  /** Fraction 0 is arc position 0, on an open path as long as the end margin. */
  lemma TargetAtZero(closed: bool, total: real)
    requires total > 0.0 && (!closed ==> total >= EndMargin)
    ensures ResampleTarget(0.0, closed, total) == 0.0
  {
    ResampleTargetOfFraction(0.0, closed, total);
  }

  /**
   * resample_poly(points, fractions, closed): the segment lengths and their
   * total, then sample_at of every fraction in turn.
   */
  method ResamplePoly(points: seq<Point>, fractions: seq<real>, closed: bool, dist: Metric<Point>)
    returns (out: seq<Point>)
    ensures out == Resampled(points, fractions, closed, dist)
  {
    if points == [] {
      return [];
    }
    var n := |points|;
    if (closed && n < 3) || (!closed && n < 2) {
      return points;
    }
    var segs, total := LengthsAndTotal(points, closed, dist);
    if total <= TinyLength {
      return points;
    }
    out := SampleFractions(points, segs, fractions, closed, total);
  }

  /** The sampling loop of resample_poly: sample_at of every fraction's arc position, in order. */
  method SampleFractions(points: seq<Point>, segs: seq<real>, fractions: seq<real>, closed: bool, total: real)
    returns (out: seq<Point>)
    requires 0 < |points| && |segs| <= |points| && total > 0.0
    ensures |out| == |fractions|
    ensures forall k :: 0 <= k < |fractions| ==> out[k] == SampleSpec(points, segs, ResampleTarget(fractions[k], closed, total))
  {
    out := [];
    for i := 0 to |fractions|
      invariant |out| == i
      invariant forall k :: 0 <= k < i ==> out[k] == SampleSpec(points, segs, ResampleTarget(fractions[k], closed, total))
    {
      var p := SampleAt(points, segs, ResampleTarget(fractions[i], closed, total));
      out := out + [p];
    }
  }

  // ---------------------------------------------------------------------
  // The 3D position of every dedup point

  /** The first index at which m holds j, or |m| when it holds it nowhere. */
  function IndexOf(m: seq<nat>, j: nat): (i: nat)
    ensures i <= |m|
    ensures i < |m| ==> m[i] == j
    ensures forall k :: 0 <= k < i ==> m[k] != j
  {
    if m == [] then 0 else if m[0] == j then 0 else 1 + IndexOf(m[1..], j)
  }

  /** The key picked for dedup point j: the first one mapped to it, key 0 if none is. */
  function FirstPick(m: seq<nat>, j: nat): nat {
    var i := IndexOf(m, j);
    if i < |m| then i else 0
  }

  /** `pts3_aligned`: the 3D position of the key picked for every dedup point. */
  function Aligned(pts3: seq<Point3>, idxMap: seq<nat>, m: nat): (aligned: seq<Point3>)
    requires |pts3| == |idxMap| > 0
    ensures |aligned| == m
  {
    seq(m, j requires 0 <= j < m => pts3[FirstPick(idxMap, j)])
  }

  /**
   * When some key maps to dedup point j, its 3D position is that of the
   * first such key: a key whose UV stands for point j.
   */
  lemma AlignedFromOwnKey(pts3: seq<Point3>, idxMap: seq<nat>, m: nat, j: nat)
    requires |pts3| == |idxMap| > 0 && j < m && Covers(idxMap, j)
    ensures var i := FirstPick(idxMap, j);
            && i < |idxMap| && idxMap[i] == j && Aligned(pts3, idxMap, m)[j] == pts3[i]
            && forall k :: 0 <= k < i ==> idxMap[k] != j
  {
    var w :| 0 <= w < |idxMap| && idxMap[w] == j;
    assert IndexOf(idxMap, j) <= w;
  }

  /**
   * The picking loop of UV_OT_loop_match3d_ratio: for every dedup point,
   * the first key mapped to it that was not picked before. The `seen` set
   * never excludes a key: every key maps to one dedup point, so a picked
   * key is never a candidate again, and the pick is the first key.
   */
  method AlignPoints(pts3: seq<Point3>, idxMap: seq<nat>, m: nat) returns (aligned: seq<Point3>)
    requires |pts3| == |idxMap| > 0
    ensures aligned == Aligned(pts3, idxMap, m)
  {
    aligned := [];
    var seen: set<nat> := {};
    for j := 0 to m
      invariant |aligned| == j
      invariant forall q :: 0 <= q < j ==> aligned[q] == pts3[FirstPick(idxMap, q)]
      invariant forall s :: s in seen ==> s < |idxMap| && idxMap[s] < j
    {
      var pick: Option<nat> := None;
      var i := 0;
      while i < |idxMap|
        invariant 0 <= i <= |idxMap|
        invariant forall k :: 0 <= k < i ==> idxMap[k] != j
      {
        if idxMap[i] == j && i !in seen {
          pick := Some(i);
          seen := seen + {i};
          break;
        }
        i := i + 1;
      }
      var at := if pick.Some? then pick.value else 0;
      aligned := aligned + [pts3[at]];
    }
  }

  // ---------------------------------------------------------------------
  // The 3D ratio fractions

  /**
   * `fracs`: one fraction per dedup point, the share of the 3D length
   * (the sum of seg3) that lies before it; on an open path the last one is
   * 1.0 outright.
   */
  ghost predicate RatioFractions(fracs: seq<real>, seg3: seq<real>, closed: bool, m: nat) {
    && m >= 1 && |fracs| == m && |seg3| == SegmentCount(m, closed) && Sum(seg3) > 0.0
    && (forall i :: 0 <= i < m && (closed || i < m - 1) ==> fracs[i] == PrefixSum(seg3, i) / Sum(seg3))
    && (!closed ==> fracs[m - 1] == 1.0)
  }

  /** The accumulating loop that builds `fracs` from seg3 and total3. */
  method RatioFractionsOf(seg3: seq<real>, total3: real, closed: bool, m: nat) returns (fracs: seq<real>)
    requires m >= 2 && |seg3| == SegmentCount(m, closed) && total3 == Sum(seg3) && total3 > 0.0
    ensures RatioFractions(fracs, seg3, closed, m)
  {
    fracs := [0.0];
    assert seg3[..0] == [];
    var acc := 0.0;
    var count := if closed then m - 1 else m - 2;
    for i := 0 to count
      invariant |fracs| == i + 1
      invariant acc == PrefixSum(seg3, i)
      invariant forall k :: 0 <= k <= i ==> fracs[k] == PrefixSum(seg3, k) / total3
    {
      PrefixSumStep(seg3, i);
      acc := acc + seg3[i];
      fracs := fracs + [acc / total3];
    }
    if !closed {
      fracs := fracs + [1.0];
    }
  }

  /** Every fraction, the forced last 1.0 of an open path included, is the share of 3D length before its point. */
  lemma FractionIsShare(fracs: seq<real>, seg3: seq<real>, closed: bool, m: nat, i: nat)
    requires RatioFractions(fracs, seg3, closed, m) && i < m
    ensures i <= |seg3| && fracs[i] == PrefixSum(seg3, i) / Sum(seg3)
  {
    if !closed && i == m - 1 {
      PrefixSumAll(seg3);
      assert |seg3| == i;
      WholeRatio(Sum(seg3));
    }
  }

  /**
   * Consecutive fractions are as far apart as the 3D segment between their
   * points is long, relative to the total: the UV spacing follows the 3D
   * ratio.
   */
  lemma RatioFractionsStep(fracs: seq<real>, seg3: seq<real>, closed: bool, m: nat, i: nat)
    requires RatioFractions(fracs, seg3, closed, m) && i + 1 < m
    ensures fracs[i + 1] - fracs[i] == seg3[i] / Sum(seg3)
  {
    FractionIsShare(fracs, seg3, closed, m, i);
    FractionIsShare(fracs, seg3, closed, m, i + 1);
    PrefixSumStep(seg3, i);
    DivideSum(PrefixSum(seg3, i), seg3[i], Sum(seg3));
  }

  lemma ScaleBack(f: real, t: real)
    requires t > 0.0
    ensures (f * t) / t == f
  {
  }

  lemma DivideSum(a: real, b: real, t: real)
    requires t > 0.0
    ensures (a + b) / t - a / t == b / t
  {
    var x, y := a / t, b / t;
    assert x * t == a && y * t == b;
    assert (x + y) * t == a + b;
  }

  /** Between a <= b, a positive divisor keeps the order. */
  lemma DivideKeepsOrder(a: real, b: real, t: real)
    requires a <= b && t > 0.0
    ensures a / t <= b / t
  {
    assert b / t - a / t == (b - a) / t;
  }

  /**
   * With non-negative 3D lengths the fractions start at 0, never decrease
   * and stay within [0, 1].
   */
  lemma RatioFractionsOrdered(fracs: seq<real>, seg3: seq<real>, closed: bool, m: nat)
    requires RatioFractions(fracs, seg3, closed, m) && NonNegative(seg3)
    ensures fracs[0] == 0.0
    ensures forall i, k :: 0 <= i <= k < m ==> 0.0 <= fracs[i] <= fracs[k] <= 1.0
  {
    var t := Sum(seg3);
    FractionIsShare(fracs, seg3, closed, m, 0);
    assert seg3[..0] == [];
    PrefixSumAll(seg3);
    forall i, k | 0 <= i <= k < m
      ensures 0.0 <= fracs[i] <= fracs[k] <= 1.0
    {
      FractionPairOrdered(fracs, seg3, closed, m, i, k);
    }
  }

  /** Two fractions in order, from their 3D length shares. */
  lemma FractionPairOrdered(fracs: seq<real>, seg3: seq<real>, closed: bool, m: nat, i: nat, k: nat)
    requires RatioFractions(fracs, seg3, closed, m) && NonNegative(seg3) && i <= k < m
    ensures 0.0 <= fracs[i] <= fracs[k] <= 1.0
  {
    FractionIsShare(fracs, seg3, closed, m, i);
    FractionIsShare(fracs, seg3, closed, m, k);
    var t := Sum(seg3);
    var a, b := PrefixSum(seg3, i), PrefixSum(seg3, k);
    assert seg3[..0] == [];
    PrefixSumAll(seg3);
    PrefixSumMonotone(seg3, 0, i);
    PrefixSumMonotone(seg3, i, k);
    PrefixSumMonotone(seg3, k, |seg3|);
    UnitRatio(b, t);
    DivideKeepsOrder(a, b, t);
    UnitRatio(a, t);
  }

  // ---------------------------------------------------------------------
  // The new points of one path

  /**
   * What one path's ratio computation produced: too few distinct points,
   * or the deduplicated UVs, the dedup index of every key, the 3D position
   * picked for every dedup point, whether those positions have zero 3D
   * length, and otherwise the fractions, the new points and every key's
   * new UV.
   */
  datatype Ratio =
    | TooFewPoints
    | Ratio(dedup: seq<Point>, idxMap: seq<nat>, aligned: seq<Point3>, flat: bool,
            fracs: seq<real>, newPts: seq<Point>, newUvs: seq<Point>)

  /**
   * The part both operators share. `dedup` and `idxMap` are dedup_with_map
   * of the polyline, with enough points, and the rest follows the 3D
   * positions as RatioOf says.
   */
  ghost predicate Deduplicated(r: Ratio, proc: seq<Point>, pts3: seq<Point3>, closed: bool,
                               dist: Metric<Point>, dist3: Metric<Point3>)
    requires r.Ratio?
  {
    && r.dedup == DedupPoints(proc, closed, DedupEps, dist)
    && |r.dedup| >= (if closed then 3 else 2)
    && |proc| > 0 && |r.idxMap| == |proc| == |pts3|
    && (forall j :: 0 <= j < |r.dedup| ==> Covers(r.idxMap, j))
    && RatioOf(r, pts3, closed, dist3)
  }

  /**
   * Every key has a dedup index; the 3D positions are the aligned ones;
   * `flat` when their 3D length is at most 1e-20, and then nothing is
   * computed further; otherwise the fractions are the 3D ratios, there is
   * one new point per dedup point, and every key takes the new point of its
   * dedup index, which always exists.
   */
  ghost predicate RatioOf(r: Ratio, pts3: seq<Point3>, closed: bool, dist3: Metric<Point3>)
    requires r.Ratio?
  {
    && |r.idxMap| == |pts3| > 0
    && (forall i :: 0 <= i < |r.idxMap| ==> r.idxMap[i] < |r.dedup|)
    && r.aligned == Aligned(pts3, r.idxMap, |r.dedup|)
    && (r.flat <==> Sum(SegmentLengths(r.aligned, closed, dist3)) <= TinyLength)
    && (r.flat ==> r.fracs == [] && r.newPts == [] && r.newUvs == [])
    && (!r.flat ==>
          && RatioFractions(r.fracs, SegmentLengths(r.aligned, closed, dist3), closed, |r.dedup|)
          && |r.newPts| == |r.dedup|
          && |r.newUvs| == |r.idxMap|
          && forall i :: 0 <= i < |r.idxMap| ==> r.newUvs[i] == r.newPts[r.idxMap[i]])
  }

  /** The new points of UV_OT_loop_match3d_ratio: the dedup points resampled at the fractions, wrapped back when unwrapped. */
  ghost predicate ResampledPoints(r: Ratio, closed: bool, wrap: bool, dist: Metric<Point>)
    requires r.Ratio?
  {
    var s := Resampled(r.dedup, r.fracs, closed, dist);
    !r.flat ==> r.newPts == if wrap then Wrap01(s) else s
  }

  /** The new points of the straightening operator: the chord between the end dedup points, cut at the fractions. */
  ghost predicate ChordAtFractions(r: Ratio)
    requires r.Ratio? && |r.dedup| > 0
  {
    !r.flat ==> r.newPts == ChordPoints(r.dedup[0], Last(r.dedup), r.fracs)
  }

  /**
   * The point half of UV_OT_loop_match3d_ratio for one path: deduplicate
   * the (unwrapped) UVs, pick the 3D positions, measure them, and
   * resample the dedup points at the 3D ratios.
   */
  method RatioPoints(proc: seq<Point>, pts3: seq<Point3>, closed: bool, wrap: bool,
                     dist: Metric<Point>, dist3: Metric<Point3>) returns (r: Ratio)
    requires |pts3| == |proc|
    ensures r.TooFewPoints? <==> |DedupPoints(proc, closed, DedupEps, dist)| < (if closed then 3 else 2)
    ensures r.Ratio? ==> Deduplicated(r, proc, pts3, closed, dist, dist3) && ResampledPoints(r, closed, wrap, dist)
  {
    var dedup, idxMap, _ := DedupWithMap(proc, closed, DedupEps, dist);
    var m := |dedup|;
    if (closed && m < 3) || (!closed && m < 2) {
      return TooFewPoints;
    }
    assert Covers(idxMap, 0);
    r := ResampleAtRatios(dedup, idxMap, pts3, closed, wrap, dist, dist3);
  }

  /** The part of RatioPoints after deduplication. */
  method ResampleAtRatios(dedup: seq<Point>, idxMap: seq<nat>, pts3: seq<Point3>, closed: bool, wrap: bool,
                          dist: Metric<Point>, dist3: Metric<Point3>) returns (r: Ratio)
    requires |dedup| >= 2 && |idxMap| == |pts3| > 0
    requires forall i :: 0 <= i < |idxMap| ==> idxMap[i] < |dedup|
    ensures r.Ratio? && r.dedup == dedup && r.idxMap == idxMap
    ensures RatioOf(r, pts3, closed, dist3) && ResampledPoints(r, closed, wrap, dist)
  {
    var m := |dedup|;
    var aligned := AlignPoints(pts3, idxMap, m);
    var seg3, total3 := LengthsAndTotal(aligned, closed, dist3);
    if total3 <= TinyLength {
      return Ratio(dedup, idxMap, aligned, true, [], [], []);
    }
    r := RatioAtLengths(dedup, idxMap, aligned, seg3, total3, closed, wrap, dist);
  }

  /** The part of ResampleAtRatios after the 3D lengths are known and positive. */
  method RatioAtLengths(dedup: seq<Point>, idxMap: seq<nat>, aligned: seq<Point3>, seg3: seq<real>, total3: real,
                        closed: bool, wrap: bool, dist: Metric<Point>) returns (r: Ratio)
    requires |dedup| >= 2 && forall i :: 0 <= i < |idxMap| ==> idxMap[i] < |dedup|
    requires |seg3| == SegmentCount(|dedup|, closed) && total3 == Sum(seg3) && total3 > 0.0
    ensures r.Ratio? && r.dedup == dedup && r.idxMap == idxMap && r.aligned == aligned && !r.flat
    ensures RatioFractions(r.fracs, seg3, closed, |dedup|)
    ensures |r.newPts| == |dedup| && |r.newUvs| == |idxMap|
    ensures forall i :: 0 <= i < |idxMap| ==> r.newUvs[i] == r.newPts[idxMap[i]]
    ensures ResampledPoints(r, closed, wrap, dist)
  {
    var fracs := RatioFractionsOf(seg3, total3, closed, |dedup|);
    var spaced := ResamplePoly(dedup, fracs, closed, dist);
    ResampledKeepsCount(dedup, fracs, closed, dist);
    var newPts := if wrap then Wrap01(spaced) else spaced;
    var newUvs := seq(|idxMap|, i requires 0 <= i < |idxMap| => newPts[idxMap[i]]);
    r := Ratio(dedup, idxMap, aligned, false, fracs, newPts, newUvs);
  }

  /**
   * The point half of the straightening operator for one open path:
   * deduplicate the UVs, pick the 3D positions (the first key of every
   * dedup point), measure them, and cut the chord at the 3D ratios.
   */
  method StraightRatioPoints(pts: seq<Point>, pts3: seq<Point3>, dist: Metric<Point>, dist3: Metric<Point3>)
    returns (r: Ratio)
    requires |pts3| == |pts|
    ensures r.TooFewPoints? <==> |DedupPoints(pts, false, DedupEps, dist)| < 2
    ensures r.Ratio? ==> Deduplicated(r, pts, pts3, false, dist, dist3) && ChordAtFractions(r)
  {
    var dedup, idxMap, _ := DedupWithMap(pts, false, DedupEps, dist);
    var m := |dedup|;
    if m < 2 {
      return TooFewPoints;
    }
    assert Covers(idxMap, 0);
    var aligned := Aligned(pts3, idxMap, m);
    var seg3, total3 := LengthsAndTotal(aligned, false, dist3);
    if total3 <= TinyLength {
      return Ratio(dedup, idxMap, aligned, true, [], [], []);
    }
    r := ChordAtLengths(dedup, idxMap, aligned, seg3, total3);
  }

  /** The part of StraightRatioPoints after the 3D lengths are known and positive. */
  method ChordAtLengths(dedup: seq<Point>, idxMap: seq<nat>, aligned: seq<Point3>, seg3: seq<real>, total3: real)
    returns (r: Ratio)
    requires |dedup| >= 2 && forall i :: 0 <= i < |idxMap| ==> idxMap[i] < |dedup|
    requires |seg3| == SegmentCount(|dedup|, false) && total3 == Sum(seg3) && total3 > 0.0
    ensures r.Ratio? && r.dedup == dedup && r.idxMap == idxMap && r.aligned == aligned && !r.flat
    ensures RatioFractions(r.fracs, seg3, false, |dedup|)
    ensures |r.newPts| == |dedup| && |r.newUvs| == |idxMap|
    ensures forall i :: 0 <= i < |idxMap| ==> r.newUvs[i] == r.newPts[idxMap[i]]
    ensures ChordAtFractions(r)
  {
    var m := |dedup|;
    var fracs := RatioFractionsOf(seg3, total3, false, m);
    var newPts := ChordPoints(dedup[0], dedup[m - 1], fracs);
    var newUvs := seq(|idxMap|, i requires 0 <= i < |idxMap| => newPts[idxMap[i]]);
    r := Ratio(dedup, idxMap, aligned, false, fracs, newPts, newUvs);
  }

  /**
   * Straightened at the 3D ratios: new point j lies on the chord between
   * the two end points at the share of 3D length before it, and the two
   * ends stay where they were.
   */
  lemma StraightFollows3d(r: Ratio, pts: seq<Point>, pts3: seq<Point3>, dist: Metric<Point>,
                          dist3: Metric<Point3>, j: nat)
    requires r.Ratio? && Deduplicated(r, pts, pts3, false, dist, dist3) && ChordAtFractions(r)
    requires !r.flat && j < |r.dedup|
    ensures var seg3 := SegmentLengths(r.aligned, false, dist3);
            r.newPts[j] == Lerp(r.dedup[0], Last(r.dedup), PrefixSum(seg3, j) / Sum(seg3))
    ensures r.newPts[0] == r.dedup[0] && Last(r.newPts) == Last(r.dedup)
  {
    var seg3 := SegmentLengths(r.aligned, false, dist3);
    var m := |r.dedup|;
    FractionIsShare(r.fracs, seg3, false, m, j);
    RatioFractionsOrdered(r.fracs, seg3, false, m);
  }

  /**
   * Resampled at the 3D ratios: unless the dedup polyline is returned as
   * a copy, new point j (before wrapping) is the sample of the dedup
   * polyline at the arc position of its 3D share, and on a closed loop, or
   * an open path at least 1e-12 long, the first point stays where it was.
   */
  lemma ResampleFollows3d(r: Ratio, proc: seq<Point>, pts3: seq<Point3>, closed: bool,
                          dist: Metric<Point>, dist3: Metric<Point3>, j: nat)
    requires r.Ratio? && Deduplicated(r, proc, pts3, closed, dist, dist3) && ResampledPoints(r, closed, false, dist)
    requires !r.flat && !ResampleCopies(r.dedup, closed, dist) && j < |r.dedup|
    ensures var seg3 := SegmentLengths(r.aligned, closed, dist3);
            var segs := SegmentLengths(r.dedup, closed, dist);
            r.newPts[j] == SampleSpec(r.dedup, segs, ResampleTarget(PrefixSum(seg3, j) / Sum(seg3), closed, Sum(segs)))
    ensures closed || Sum(SegmentLengths(r.dedup, closed, dist)) >= EndMargin ==> r.newPts[0] == r.dedup[0]
  {
    var seg3 := SegmentLengths(r.aligned, closed, dist3);
    var m := |r.dedup|;
    FractionIsShare(r.fracs, seg3, closed, m, j);
    RatioFractionsOrdered(r.fracs, seg3, closed, m);
    if closed || Sum(SegmentLengths(r.dedup, closed, dist)) >= EndMargin {
      ResampledStart(r.dedup, r.fracs, closed, dist);
    }
  }

  // ---------------------------------------------------------------------
  // One path

  /** The writes of a processed path: every written loop carries a new point, and every recorded loop is written. */
  ghost predicate WroteNewPoints(uv: seq<Point>, t: LoopTable, keys: seq<Key>, newPts: seq<Point>, written: set<Handle>) {
    && (forall h :: h in written ==> h < |uv| && uv[h] in newPts)
    && Covered(t, keys, AllMovable(|keys|), written, |keys|)
  }

  /**
   * Write the new UVs of all keys of a processed path and collect the weld
   * keys that change.
   */
  method ApplyRatio(mesh: Mesh, t: LoopTable, keys: seq<Key>, proc: seq<Point>, r: Ratio, weldTol: real)
    returns (moved: set<Key>, ghost written: set<Handle>, ghost origin: Origin)
    requires mesh.Valid() && TableInRange(t, |mesh.uv|)
    requires r.Ratio? && !r.flat && |r.newUvs| == |proc| == |keys|
    requires forall i :: 0 <= i < |keys| ==> r.newUvs[i] in r.newPts
    modifies mesh
    ensures mesh.Valid()
    ensures moved == MovedKeys(proc, r.newUvs, AllMovable(|keys|), weldTol)
    ensures WriteLog(old(mesh.uv), mesh.uv, mesh.vertOf, t, keys, AllMovable(|keys|), r.newUvs, weldTol, written, origin)
    ensures MovableWrites(old(mesh.uv), mesh.uv, mesh.vertOf, t, keys, AllMovable(|keys|), written)
    ensures WroteNewPoints(mesh.uv, t, keys, r.newPts, written)
    ensures Covered(t, keys, AllMovable(|keys|), written, |keys|)
    ensures WeldClosed(old(mesh.uv), mesh.vertOf, weldTol, written)
  {
    var movable := AllMovable(|keys|);
    moved := CollectMoved(proc, r.newUvs, movable, weldTol, {});
    written, origin := WriteBack(mesh, t, keys, movable, r.newUvs, weldTol);
    ComposeWrites(old(mesh.uv), old(mesh.uv), mesh.uv, mesh.vertOf, t, keys, movable, r.newUvs, weldTol, {}, written, origin);
  }

  /**
   * What one path that was read ends in: too few distinct points or a zero
   * 3D length is a skip that writes nothing; otherwise the path is counted
   * with its kind and its moved weld keys (compared on the polyline that was
   * worked on), and every loop is written with a new point.
   */
  ghost predicate RatioPathDone(c: Counts, c': Counts, closed: bool, proc: seq<Point>, r: Ratio, moved: set<Key>,
                                uv: seq<Point>, t: LoopTable, keys: seq<Key>, written: set<Handle>, weldTol: real)
  {
    && (r.TooFewPoints? || r.flat ==> c' == c.(skipped := c.skipped + 1) && written == {})
    && (r.Ratio? && !r.flat ==>
          && |r.newUvs| == |proc| == |keys|
          && c' == Tally(c, closed, |moved|)
          && moved == MovedKeys(proc, r.newUvs, AllMovable(|keys|), weldTol)
          && WroteNewPoints(uv, t, keys, r.newPts, written))
  }

  /**
   * The body of UV_OT_loop_match3d_ratio for a path whose UVs and vertex
   * positions were read: unwrap a closed path that crosses the seam,
   * compute the new points and write them.
   */
  method RatioPath(mesh: Mesh, t: LoopTable, keys: seq<Key>, closed: bool, pts: seq<Point>, pts3: seq<Point3>,
                   weldTol: real, dist: Metric<Point>, dist3: Metric<Point3>, c: Counts)
    returns (c': Counts, moved: set<Key>, ghost written: set<Handle>, ghost r: Ratio)
    requires mesh.Valid() && TableInRange(t, |mesh.uv|)
    requires |pts| == |pts3| == |keys|
    modifies mesh
    ensures mesh.Valid()
    ensures MovableWrites(old(mesh.uv), mesh.uv, mesh.vertOf, t, keys, AllMovable(|keys|), written)
    ensures var unwrap := CrossesSeam(pts, closed);
            var proc := Processed(pts, unwrap);
            && (r.TooFewPoints? <==> !EnoughPoints(pts, closed, unwrap, dist))
            && (r.Ratio? ==> Deduplicated(r, proc, pts3, closed, dist, dist3) && ResampledPoints(r, closed, unwrap, dist))
            && RatioPathDone(c, c', closed, proc, r, moved, mesh.uv, t, keys, written, weldTol)
  {
    var unwrap := NeedUnwrap(pts, closed);
    var proc := pts;
    if unwrap {
      proc := UnwrapCycle01(pts);
      assert proc == Processed(pts, unwrap);
    }
    var res := RatioPoints(proc, pts3, closed, unwrap, dist, dist3);
    r := res;
    if res.TooFewPoints? || res.flat {
      return c.(skipped := c.skipped + 1), {}, {}, r;
    }
    ghost var origin;
    moved, written, origin := ApplyRatio(mesh, t, keys, proc, res, weldTol);
    c' := Tally(c, closed, |moved|);
  }

  /**
   * The per-path body of UV_OT_loop_match3d_ratio.execute. A path with at
   * most two distinct keys is skipped. A path whose UVs or vertex positions
   * cannot be read cancels the operator. Too few distinct points, or a zero
   * 3D length, is a skip. Otherwise every key gets the resampled point of
   * its dedup index, written to all loops welded to its recorded loops, and
   * the path is counted.
   */
  method Match3dPath(mesh: Mesh, sub: Graph, p: Path, t: LoopTable, kind: LoopKind, weldTol: real,
                     dist: Metric<Point>, dist3: Metric<Point3>, c: Counts)
    returns (cancelled: bool, c': Counts, moved: set<Key>, ghost written: set<Handle>, ghost r: Ratio)
    requires mesh.Valid() && TableInRange(t, |mesh.uv|)
    modifies mesh
    ensures mesh.Valid()
    ensures MovableWrites(old(mesh.uv), mesh.uv, mesh.vertOf, t, p.keys, AllMovable(|p.keys|), written)
    ensures |DistinctKeys(p.keys)| <= 2 ==> !cancelled && c' == c.(skipped := c.skipped + 1) && written == {}
    ensures |DistinctKeys(p.keys)| > 2 ==> (cancelled <==> !AllRecorded(t, p.keys))
    ensures cancelled ==> written == {}
    ensures |DistinctKeys(p.keys)| > 2 && AllRecorded(t, p.keys) ==>
              var closed := ResolveClosed3d(kind, p.closed, sub, p.keys);
              var pts := FirstUvs(old(mesh.uv), t, p.keys);
              var unwrap := CrossesSeam(pts, closed);
              var proc := Processed(pts, unwrap);
              && (r.TooFewPoints? <==> !EnoughPoints(pts, closed, unwrap, dist))
              && (r.Ratio? ==>
                    && Deduplicated(r, proc, old(FirstPositions(mesh, t, p.keys)), closed, dist, dist3)
                    && ResampledPoints(r, closed, unwrap, dist))
              && RatioPathDone(c, c', closed, proc, r, moved, mesh.uv, t, p.keys, written, weldTol)
  {
    cancelled, c', moved, written, r := false, c, {}, {}, TooFewPoints;
    if |DistinctKeys(p.keys)| <= 2 {
      c' := c.(skipped := c.skipped + 1);
      return;
    }
    var closed := ResolveClosed3d(kind, p.closed, sub, p.keys);
    var uvs := ReadPoints(mesh, t, p.keys);
    var pos := ReadPositions(mesh, t, p.keys);
    if uvs.None? || pos.None? {
      cancelled := true;
      return;
    }
    c', moved, written, r := RatioPath(mesh, t, p.keys, closed, uvs.value, pos.value, weldTol, dist, dist3, c);
  }

  /** The coordinate check of the straightening operator: `max(weld_tolerance * 10.0, 1e-6)`. */
  function CoordTolerance(weldTol: real): (tol: real)
    ensures tol >= 0.000001 && tol >= weldTol * 10.0
  {
    Max(weldTol * 10.0, 0.000001)
  }

  /**
   * `is_closed` of the straightening operator: the walk's flag, the degree
   * rule, or a first and last UV within the coordinate tolerance of each
   * other on a path of at least 3 points.
   */
  function StraightClosed(walkClosed: bool, sub: Graph, keys: seq<Key>, uv: seq<Point>, weldTol: real,
                          dist: Metric<Point>): bool
  {
    || walkClosed
    || ClosedBy(AllDegreeTwo, sub, keys)
    || (|uv| >= 3 && dist(uv[0], Last(uv)) <= CoordTolerance(weldTol))
  }

  /**
   * Every path the main operator closes under 'AUTO' is closed here as
   * well, and so is every path of at least 3 points whose ends coincide.
   */
  lemma StraightClosedCovers(walkClosed: bool, sub: Graph, keys: seq<Key>, uv: seq<Point>, weldTol: real,
                             dist: Metric<Point>)
    ensures ResolveClosed3d(Auto, walkClosed, sub, keys) ==> StraightClosed(walkClosed, sub, keys, uv, weldTol, dist)
    ensures |uv| >= 3 && uv[0] == Last(uv) ==> StraightClosed(walkClosed, sub, keys, uv, weldTol, dist)
  {
    if |uv| >= 3 && uv[0] == Last(uv) {
      assert dist(uv[0], Last(uv)) == 0.0;
    }
  }

  /**
   * The per-path body of UV_OT_loop_match3d_ratio_straight_open.execute. A
   * path with at most two distinct keys, or whose UVs cannot be read, is
   * skipped; a closed path is counted as closed and skipped, untouched.
   * An open path is deduplicated: fewer than two distinct points, or a zero
   * 3D length, is a skip; otherwise every key gets the chord point of its
   * dedup index and the path is counted as open.
   */
  method Match3dStraightPath(mesh: Mesh, sub: Graph, p: Path, t: LoopTable, weldTol: real,
                             dist: Metric<Point>, dist3: Metric<Point3>, c: Counts)
    returns (c': Counts, moved: set<Key>, ghost written: set<Handle>, ghost r: Ratio)
    requires mesh.Valid() && TableInRange(t, |mesh.uv|)
    modifies mesh
    ensures mesh.Valid()
    ensures MovableWrites(old(mesh.uv), mesh.uv, mesh.vertOf, t, p.keys, AllMovable(|p.keys|), written)
    ensures |DistinctKeys(p.keys)| <= 2 || !AllRecorded(t, p.keys) ==>
              c' == c.(skipped := c.skipped + 1) && written == {}
    ensures |DistinctKeys(p.keys)| > 2 && AllRecorded(t, p.keys) ==>
              var pts := FirstUvs(old(mesh.uv), t, p.keys);
              && (StraightClosed(p.closed, sub, p.keys, pts, weldTol, dist) ==>
                    c' == c.(countClosed := c.countClosed + 1, skipped := c.skipped + 1) && written == {})
              && (!StraightClosed(p.closed, sub, p.keys, pts, weldTol, dist) ==>
                    && (r.TooFewPoints? <==> |DedupPoints(pts, false, DedupEps, dist)| < 2)
                    && (r.Ratio? ==>
                          && Deduplicated(r, pts, old(FirstPositions(mesh, t, p.keys)), false, dist, dist3)
                          && ChordAtFractions(r))
                    && (r.TooFewPoints? || r.flat ==> c' == c.(skipped := c.skipped + 1) && written == {})
                    && (r.Ratio? && !r.flat ==>
                          && c' == Tally(c, false, |moved|)
                          && moved == MovedKeys(pts, r.newUvs, AllMovable(|p.keys|), weldTol)
                          && WroteNewPoints(mesh.uv, t, p.keys, r.newPts, written)))
  {
    c', moved, written, r := c, {}, {}, TooFewPoints;
    if |DistinctKeys(p.keys)| <= 2 {
      c' := c.(skipped := c.skipped + 1);
      return;
    }
    var uvs := ReadPoints(mesh, t, p.keys);
    if uvs.None? {
      c' := c.(skipped := c.skipped + 1);
      return;
    }
    var pts := uvs.value;
    if StraightClosed(p.closed, sub, p.keys, pts, weldTol, dist) {
      c' := c.(countClosed := c.countClosed + 1, skipped := c.skipped + 1);
      return;
    }
    var pos := ReadPositions(mesh, t, p.keys);
    var res := StraightRatioPoints(pts, pos.value, dist, dist3);
    r := res;
    if res.TooFewPoints? || res.flat {
      c' := c.(skipped := c.skipped + 1);
      return;
    }
    ghost var origin;
    moved, written, origin := ApplyRatio(mesh, t, p.keys, pts, res, weldTol);
    c' := Tally(c, false, |moved|);
  }

  // ---------------------------------------------------------------------
  // One object

  /** Which of the two operators runs, with its settings. */
  datatype RatioOperator = PreserveShape(kind: LoopKind, weldTolerance: real) | StraightenOpenRatio(weldTolerance: real)

  /**
   * The body of execute for one mesh object: build the key graph and the
   * loop table from the selected UV edges at the graph tolerance, split the
   * graph into components and walk each into paths, then run the
   * operator's per-path body on every path. With no selected edge the
   * object is left alone; no component at all cancels the operator, and so
   * does a path body that cancels; a component that yields no path is a
   * skip. Only loops sharing a vertex with a corner of a selected edge
   * change, cancelled or not.
   */
  method RunRatioObject(mesh: Mesh, sel: seq<(Handle, Handle)>, op: RatioOperator,
                        dist: Metric<Point>, dist3: Metric<Point3>, c: Counts)
    returns (cancelled: bool, c': Counts)
    requires mesh.Valid() && SelectionInRange(sel, |mesh.uv|)
    modifies mesh
    ensures mesh.Valid()
    ensures ChangedNearSelection(old(mesh.uv), mesh.uv, mesh.vertOf, Corners(sel))
    ensures sel == [] ==> !cancelled && c' == c && mesh.uv == old(mesh.uv)
    ensures c'.processed >= c.processed && c'.skipped >= c.skipped
  {
    cancelled, c' := false, c;
    if sel == [] {
      return;
    }
    var tol := GraphTolerance(op.weldTolerance);
    ghost var uv0 := mesh.uv;
    var g, nodes := BuildGraph(EdgePoints(mesh.uv, sel), tol);
    var t := BuildLoopTable(mesh, sel, tol);
    var comps := ConnectedComponents(g);
    if comps == [] {
      return true, c';
    }
    for ci := 0 to |comps|
      invariant mesh.Valid() && TableInRange(t, |mesh.uv|)
      invariant ChangedNearSelection(uv0, mesh.uv, mesh.vertOf, Corners(sel))
      invariant c'.processed >= c.processed && c'.skipped >= c.skipped
    {
      var sub := Restrict(g, comps[ci]);
      var paths, _ := ExtractPaths(sub, AdjacentEnds);
      if paths == [] {
        c' := c'.(skipped := c'.skipped + 1);
        continue;
      }
      for pi := 0 to |paths|
        invariant mesh.Valid() && TableInRange(t, |mesh.uv|)
        invariant ChangedNearSelection(uv0, mesh.uv, mesh.vertOf, Corners(sel))
        invariant c'.processed >= c.processed && c'.skipped >= c.skipped
      {
        ghost var uv1 := mesh.uv;
        var path := paths[pi];
        match op {
          case PreserveShape(kind, w) =>
            var stop, next, _, written, _ := Match3dPath(mesh, sub, path, t, kind, w, dist, dist3, c');
            PathStaysNearSelection(uv0, uv1, mesh.uv, mesh.vertOf, Corners(sel), t, tol, path.keys,
                                   AllMovable(|path.keys|), written);
            if stop {
              return true, c';
            }
            c' := next;
          case StraightenOpenRatio(w) =>
            var next, _, written, _ := Match3dStraightPath(mesh, sub, path, t, w, dist, dist3, c');
            PathStaysNearSelection(uv0, uv1, mesh.uv, mesh.vertOf, Corners(sel), t, tol, path.keys,
                                   AllMovable(|path.keys|), written);
            c' := next;
        }
      }
    }
  }
}
