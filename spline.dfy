/**
 * The modal spline editor of operators/spline.py, reduced to the edits it
 * makes. Each curve keeps the path it was built from, its control points,
 * a selection and an active index, and the loops assigned to it with their
 * original UVs and their fractions along the path. The editor state keeps
 * the curves, the active curve and the shared control-point count. The
 * session adds the control-point snapshot a drag can be undone to, the drag
 * itself, and the backup of every loop UV the preview overwrote, which a
 * cancel puts back.
 */
module Spline {
  import opened Geometry
  import opened Wrappers
  import opened Polyline
  import opened Curves
  import opened MeshPass
  import Match3d

  /** `_resolution_fixed`: every curve is sampled as BEZIER with 128 steps. */
  const Resolution: int := 128

  /** The largest shared control-point count `_clamp_global` allows. */
  const MaxPoints: int := 30

  // ---------------------------------------------------------------------
  // Index edits of the control-point list and its selection
  // ---------------------------------------------------------------------

  /** `ctrl.insert(k, p)`. */
  function InsertAt(s: seq<Point>, k: nat, p: Point): (r: seq<Point>)
    requires k <= |s|
    ensures |r| == |s| + 1 && r[k] == p
    ensures forall j :: 0 <= j < k ==> r[j] == s[j]
    ensures forall j :: k < j < |r| ==> r[j] == s[j - 1]
  {
    s[..k] + [p] + s[k..]
  }

  /** `ctrl.pop(k)`. */
  function RemoveAt(s: seq<Point>, k: nat): (r: seq<Point>)
    requires k < |s|
    ensures |r| == |s| - 1
    ensures forall j :: 0 <= j < k ==> r[j] == s[j]
    ensures forall j :: k <= j < |r| ==> r[j] == s[j + 1]
  {
    s[..k] + s[k + 1..]
  }

  /** Removing the point just inserted gives the list back. */
  lemma RemoveInserted(s: seq<Point>, k: nat, p: Point)
    requires k <= |s|
    ensures RemoveAt(InsertAt(s, k, p), k) == s
  {
  }

  /**
   * The selection after inserting a point at index k: indices below k stay,
   * the others move up by one (`{i if i <= best_i else i+1 for i in sel}`
   * with k = best_i + 1).
   */
  function InsertShift(sel: set<nat>, k: nat): (r: set<nat>)
    ensures forall j: nat :: j in r <==> (j < k && j in sel) || (j > k && j - 1 in sel)
  {
    var r := set i | i in sel :: if i < k then i else i + 1;
    assert forall j: nat | j > k && j - 1 in sel :: j in r by {
      forall j: nat | j > k && j - 1 in sel
        ensures j in r
      {
        var i: nat := j - 1;
        assert i in sel && !(i < k);
      }
    }
    r
  }

  /**
   * The selection after deleting the point at pidx: pidx leaves it, indices
   * below pidx stay and the ones above move down by one, so every selected
   * point other than the deleted one stays selected.
   */
  function DeleteSelection(sel: set<nat>, pidx: nat): (r: set<nat>)
    ensures forall j: nat {:trigger j in r} :: j in r <==> (j < pidx && j in sel) || (j >= pidx && j + 1 in sel)
  {
    var r := set i | i in sel && i != pidx :: if i < pidx then i else i - 1;
    assert forall j: nat | j >= pidx && j + 1 in sel :: j in r by {
      forall j: nat | j >= pidx && j + 1 in sel
        ensures j in r
      {
        var i: nat := j + 1;
        assert i in sel && i != pidx && !(i < pidx);
      }
    }
    r
  }

  /**
   * The delete selection as operators/spline.py writes it, with the extra
   * filter `(i-1) >= 0`: index 0 is dropped even when a later point is
   * deleted.
   */
  function DeleteSelectionAsWritten(sel: set<nat>, pidx: nat): (r: set<nat>)
    ensures forall j: nat {:trigger j in r} :: j in r <==> (0 < j < pidx && j in sel) || (j >= pidx && j + 1 in sel)
  {
    var r := set i | i in sel && i != pidx && i - 1 >= 0 :: if i < pidx then i else i - 1;
    assert forall j: nat | j >= pidx && j + 1 in sel :: j in r by {
      forall j: nat | j >= pidx && j + 1 in sel
        ensures j in r
      {
        var i: nat := j + 1;
        assert i in sel && i != pidx && i - 1 >= 0 && !(i < pidx);
      }
    }
    r
  }

  /** Deleting the inserted point gives the selection back. */
  lemma {:induction false} DeleteUndoesInsertShift(sel: set<nat>, k: nat)
    ensures DeleteSelection(InsertShift(sel, k), k) == sel
  {
    var shifted := InsertShift(sel, k);
    var back := DeleteSelection(shifted, k);
    forall j: nat
      ensures j in back <==> j in sel
    {
      if j >= k {
        assert j + 1 in shifted <==> j in sel;
      } else {
        assert j in shifted <==> j in sel;
      }
    }
  }

  /**
   * The written filter differs from the intended selection in index 0 only:
   * it loses 0 whenever a later point is deleted.
   */
  lemma {:induction false} AsWrittenLosesOnlyFirst(sel: set<nat>, pidx: nat)
    ensures DeleteSelectionAsWritten(sel, pidx) == DeleteSelection(sel, pidx) - (if pidx > 0 then {0} else {})
  {
    var w := DeleteSelectionAsWritten(sel, pidx);
    var c := DeleteSelection(sel, pidx) - (if pidx > 0 then {0} else {});
    forall j: nat
      ensures j in w <==> j in c
    {
    }
  }

  /** Selecting points 0 and 2 and deleting point 2 leaves nothing selected, where point 0 should stay. */
  lemma DeleteDropsFirstPoint()
    ensures DeleteSelectionAsWritten({0, 2}, 2) == {}
    ensures DeleteSelection({0, 2}, 2) == {0}
  {
    var w := DeleteSelectionAsWritten({0, 2}, 2);
    forall j: nat
      ensures j !in w
    {
      assert j + 1 != 0 && j + 1 != 2 ==> j + 1 !in {0, 2};
    }
    var c := DeleteSelection({0, 2}, 2);
    forall j: nat
      ensures j in c <==> j == 0
    {
      assert j + 1 != 0 && j + 1 != 2 ==> j + 1 !in {0, 2};
    }
  }

  /** `max(0, min(pick, n - 1))`: the curve an insertion goes to. */
  function ClampIndex(pick: int, n: nat): (r: nat)
    requires n > 0
    ensures r < n
    ensures 0 <= pick < n ==> r == pick
  {
    if pick < 0 then 0 else if pick > n - 1 then n - 1 else pick
  }

  /**
   * The segment an insertion goes after: the first segment of the control
   * polyline nearest to the mouse, or segment 0 when none is nearer than
   * 1e20 in squared distance. The search is the one of
   * utils.closest_point_on_polyline.
   */
  ghost predicate InsertSegment(ctrl: seq<Point>, closed: bool, mouse: Point, best: nat)
    requires |ctrl| > 0
  {
    if exists s :: 0 <= s < ClosestSegCount(|ctrl|, closed) && SegD2(ctrl, closed, s, mouse) < FarAway
    then IsFirstClosest(ctrl, closed, mouse, best)
    else best == 0
  }

  /** InsertSegment names the same segment under an equal index. */
  lemma InsertSegmentAt(ctrl: seq<Point>, closed: bool, mouse: Point, best: nat, best': nat)
    requires |ctrl| > 0 && InsertSegment(ctrl, closed, mouse, best) && best' == best
    ensures InsertSegment(ctrl, closed, mouse, best')
  {
  }

  /** The search of the insertion: the segment closest_point_on_polyline finds. */
  method NearestSegment(ctrl: seq<Point>, closed: bool, mouse: Point) returns (best: nat)
    requires |ctrl| > 0
    ensures best < |ctrl| && InsertSegment(ctrl, closed, mouse, best)
  {
    var index, _, _ := ClosestPointOnPolyline(ctrl, mouse, closed);
    best := index;
  }

  // ---------------------------------------------------------------------
  // The preview point of a loop
  // ---------------------------------------------------------------------

  /** The far end of preview segment si: (si, si + 1), and (n - 1, 0) for the closing one. */
  function PairEnd(n: nat, si: nat): (r: nat)
    requires si < n
    ensures r < n
  {
    if si + 1 < n then si + 1 else 0
  }

  /**
   * The arc length a fraction asks for: the fraction taken modulo 1 on a
   * closed curve and clamped to [0, 1] on an open one, times the total.
   */
  function FractionTarget(frac: real, closed: bool, total: real): (r: real)
    requires total > 0.0
    ensures 0.0 <= r <= total
    ensures closed ==> r < total
  {
    var f := if closed then FloorMod(frac, 1.0) else Match3d.Clamp01(frac);
    FractionTargetBounds(f, total, closed);
    f * total
  }

  lemma FractionTargetBounds(f: real, total: real, closed: bool)
    requires total > 0.0 && 0.0 <= f <= 1.0 && (closed ==> f < 1.0)
    ensures 0.0 <= f * total <= total
    ensures closed ==> f * total < total
  {
  }

  /**
   * The scan of `point_at_fraction` from segment si, with acc the length
   * before it: the first segment whose end reaches the target, and the
   * point at the target along it (its start on a zero-length segment). When
   * no segment reaches the target, the far end of the last segment.
   */
  function PointFrom(samples: seq<Point>, lens: seq<real>, target: real, si: nat, acc: real): Point
    requires 0 < |lens| <= |samples| && si <= |lens|
    decreases |lens| - si
  {
    if si == |lens| then samples[PairEnd(|samples|, |lens| - 1)]
    else if acc + lens[si] >= target then
      Lerp(samples[si], samples[PairEnd(|samples|, si)], if lens[si] == 0.0 then 0.0 else (target - acc) / lens[si])
    else PointFrom(samples, lens, target, si + 1, acc + lens[si])
  }

  /** `point_at_fraction(frac)` on the samples with segment lengths lens and the given total. */
  function FractionPoint(samples: seq<Point>, lens: seq<real>, closed: bool, total: real, frac: real): Point
    requires 0 < |lens| <= |samples| && total > 0.0
  {
    PointFrom(samples, lens, FractionTarget(frac, closed, total), 0, 0.0)
  }

  /** A point on segment si of the samples. */
  ghost predicate OnSegment(samples: seq<Point>, si: nat, q: Point)
    requires si < |samples|
  {
    exists t: real :: 0.0 <= t <= 1.0 && q == Lerp(samples[si], samples[PairEnd(|samples|, si)], t)
  }

  /** Scanning from a length not past the target ends on one of the segments. */
  lemma {:induction false} PointFromOnSegment(samples: seq<Point>, lens: seq<real>, target: real, si: nat, acc: real)
    requires 0 < |lens| <= |samples| && si <= |lens| && NonNegative(lens)
    requires acc <= target
    ensures exists k :: 0 <= k < |lens| && OnSegment(samples, k, PointFrom(samples, lens, target, si, acc))
    decreases |lens| - si
  {
    var q := PointFrom(samples, lens, target, si, acc);
    if si == |lens| {
      var k := |lens| - 1;
      assert q == Lerp(samples[k], samples[PairEnd(|samples|, k)], 1.0);
      assert OnSegment(samples, k, q);
    } else if acc + lens[si] >= target {
      var t := if lens[si] == 0.0 then 0.0 else (target - acc) / lens[si];
      if lens[si] != 0.0 {
        UnitRatio(target - acc, lens[si]);
      }
      assert q == Lerp(samples[si], samples[PairEnd(|samples|, si)], t);
      assert OnSegment(samples, si, q);
    } else {
      PointFromOnSegment(samples, lens, target, si + 1, acc + lens[si]);
    }
  }

  /** Every preview point lies on the sampled curve: on one of its segments. */
  lemma FractionPointOnCurve(samples: seq<Point>, lens: seq<real>, closed: bool, total: real, frac: real)
    requires 0 < |lens| <= |samples| && total > 0.0 && NonNegative(lens)
    ensures exists k :: 0 <= k < |lens| && OnSegment(samples, k, FractionPoint(samples, lens, closed, total, frac))
  {
    PointFromOnSegment(samples, lens, FractionTarget(frac, closed, total), 0, 0.0);
    assert FractionPoint(samples, lens, closed, total, frac) == PointFrom(samples, lens, FractionTarget(frac, closed, total), 0, 0.0);
  }

  /** A loop at fraction 0 goes to the first sample, the start of the curve. */
  lemma FractionPointAtStart(samples: seq<Point>, lens: seq<real>, closed: bool, total: real)
    requires 0 < |lens| <= |samples| && total > 0.0 && NonNegative(lens)
    ensures FractionPoint(samples, lens, closed, total, 0.0) == samples[0]
  {
    var target := FractionTarget(0.0, closed, total);
    ZeroTarget(closed, total);
    assert target == 0.0;
    assert 0.0 + lens[0] >= target;
  }

  lemma ZeroTarget(closed: bool, total: real)
    requires total > 0.0
    ensures FractionTarget(0.0, closed, total) == 0.0
  {
    if closed {
      assert (0.0 / 1.0).Floor == 0;
    }
  }

  /** `point_at_fraction`: the linear scan over the segment lengths. */
  method PointAtFraction(samples: seq<Point>, lens: seq<real>, closed: bool, total: real, frac: real)
    returns (q: Point)
    requires 0 < |lens| <= |samples| && total > 0.0
    ensures q == FractionPoint(samples, lens, closed, total, frac)
  {
    var target := FractionTarget(frac, closed, total);
    var acc := 0.0;
    var si := 0;
    while si < |lens|
      invariant si <= |lens|
      invariant PointFrom(samples, lens, target, si, acc) == FractionPoint(samples, lens, closed, total, frac)
    {
      var len := lens[si];
      if acc + len >= target {
        var t := if len == 0.0 then 0.0 else (target - acc) / len;
        return Lerp(samples[si], samples[PairEnd(|samples|, si)], t);
      }
      acc := acc + len;
      si := si + 1;
    }
    q := samples[PairEnd(|samples|, |lens| - 1)];
  }

  // ---------------------------------------------------------------------
  // Drag entries
  // ---------------------------------------------------------------------

  /** One `(ci, i, base)` of `_selected_points_snapshot`: a selected point and where it was. */
  datatype DragEntry = DragEntry(curve: nat, index: nat, base: Point)

  /** Curve by curve, then index by index. */
  predicate EntryBefore(a: DragEntry, b: DragEntry) {
    a.curve < b.curve || (a.curve == b.curve && a.index < b.index)
  }

  predicate EntriesSorted(data: seq<DragEntry>) {
    forall k, l :: 0 <= k < l < |data| ==> EntryBefore(data[k], data[l])
  }

  /**
   * Where `_apply_drag` puts point i of curve ci, which was at p: base +
   * delta for the last entry naming it, p when none does.
   */
  function DragTarget(data: seq<DragEntry>, ci: nat, i: nat, p: Point, delta: Point): Point {
    if data == [] then p
    else
      var e := data[|data| - 1];
      if e.curve == ci && e.index == i then Add(e.base, delta)
      else DragTarget(data[..|data| - 1], ci, i, p, delta)
  }

  /** In a snapshot each point is named once, so a dragged point goes to its own base + delta. */
  lemma {:induction false} DragTargetOfEntry(data: seq<DragEntry>, k: nat, p: Point, delta: Point)
    requires EntriesSorted(data) && k < |data|
    ensures DragTarget(data, data[k].curve, data[k].index, p, delta) == Add(data[k].base, delta)
  {
    var last := |data| - 1;
    if k < last {
      assert EntryBefore(data[k], data[last]);
      DragTargetOfEntry(data[..last], k, p, delta);
    }
  }

  /** A point no entry names stays where it was. */
  lemma {:induction false} DragTargetUnlisted(data: seq<DragEntry>, ci: nat, i: nat, p: Point, delta: Point)
    requires forall k :: 0 <= k < |data| ==> !(data[k].curve == ci && data[k].index == i)
    ensures DragTarget(data, ci, i, p, delta) == p
  {
    if data != [] {
      DragTargetUnlisted(data[..|data| - 1], ci, i, p, delta);
    }
  }

  // ---------------------------------------------------------------------
  // Curves
  // ---------------------------------------------------------------------

  /** `sample_polyline(ctrl, 128, 'BEZIER', closed)`: what the editor draws and resamples. */
  ghost function CurrentSamples(ctrl: seq<Point>, closed: bool, dist: Metric<Point>): seq<Point> {
    if |ctrl| < 2 then ctrl else CurveSamples(ControlPoints(ctrl, closed, dist), closed, Resolution, Bezier)
  }

  /** The selected indices below count (`{i for i in sel if i < count}`). */
  function Below(sel: set<nat>, count: int): (r: set<nat>)
    ensures forall j :: j in r <==> j in sel && j < count
  {
    set j | j in sel && j < count
  }

  /** CurveData: one editable curve. */
  class CurveData {
    /** The UV path the curve was found on. */
    const origPath: seq<Point>
    const closedLocked: bool
    /** The loops assigned to the curve, their UVs when the editor opened, and their fractions along the path. */
    const loops: seq<Handle>
    const origUvs: seq<Point>
    const origFractions: seq<real>
    var ctrl: seq<Point>
    var sel: set<nat>
    var activeIdx: int

    constructor (path: seq<Point>, closed: bool, loops0: seq<Handle>, uvs0: seq<Point>, fracs0: seq<real>)
      ensures origPath == path && closedLocked == closed
      ensures loops == loops0 && origUvs == uvs0 && origFractions == fracs0
      ensures ctrl == [] && sel == {} && activeIdx == -1
    {
      origPath := path;
      closedLocked := closed;
      loops := loops0;
      origUvs := uvs0;
      origFractions := fracs0;
      ctrl := [];
      sel := {};
      activeIdx := -1;
    }

    /** Built on a path of more than two points, with one original UV and one fraction per loop. */
    ghost predicate WellFormed() {
      |origPath| >= 3 && |loops| == |origUvs| == |origFractions|
    }

    /** The curve as `_resample_all_from_original(count)` leaves it, from selection sel0. */
    ghost predicate ResampledOriginal(count: int, sel0: set<nat>, dist: Metric<Point>)
      reads this
      requires WellFormed()
    {
      && ResampledFrom(ctrl, ControlPoints(origPath, closedLocked, dist), count, closedLocked, dist)
      && sel == Below(sel0, count)
    }

    /**
     * The curve as `_resample_all_from_current(count)` leaves it, from
     * control points ctrl0 and selection sel0: resampled along its drawn
     * curve when that has two or more samples, untouched otherwise.
     */
    ghost predicate ResampledCurrent(count: int, ctrl0: seq<Point>, sel0: set<nat>, dist: Metric<Point>)
      reads this
    {
      var s := CurrentSamples(ctrl0, closedLocked, dist);
      if |s| >= 2 then
        && ResampledFrom(ctrl, ControlPoints(s, closedLocked, dist), count, closedLocked, dist)
        && sel == Below(sel0, count)
      else ctrl == ctrl0 && sel == sel0
    }

    /** One curve of `_resample_all_from_original`: count points evenly along the original path. */
    method ResampleFromOriginal(count: int, dist: Metric<Point>)
      requires WellFormed()
      modifies this
      ensures ResampledOriginal(count, old(sel), dist) && activeIdx == old(activeIdx)
      ensures count >= 0 ==> |ctrl| == count
      ensures forall j :: j in sel ==> j < count
    {
      ctrl := ResampleByLength(origPath, count, Some(closedLocked), dist);
      sel := Below(sel, count);
    }

    /** One curve of `_resample_all_from_current`: count points evenly along the drawn curve. */
    method ResampleFromCurrent(count: int, dist: Metric<Point>)
      modifies this
      ensures ResampledCurrent(count, old(ctrl), old(sel), dist) && activeIdx == old(activeIdx)
      ensures |CurrentSamples(old(ctrl), closedLocked, dist)| >= 2 && count >= 0 ==> |ctrl| == count
    {
      var samples, _ := SamplePolyline(ctrl, Resolution, Bezier, Some(closedLocked), dist);
      if |samples| >= 2 {
        ctrl := ResampleByLength(samples, count, Some(closedLocked), dist);
        sel := Below(sel, count);
      }
    }

    /**
     * `ctrl.pop(pidx)`, which the source lets fail silently when pidx is out
     * of range, and the selection update that goes with it.
     */
    method RemovePoint(pidx: nat)
      modifies this
      ensures pidx < |old(ctrl)| ==> ctrl == RemoveAt(old(ctrl), pidx)
      ensures pidx >= |old(ctrl)| ==> ctrl == old(ctrl)
      ensures sel == DeleteSelection(old(sel), pidx) && activeIdx == old(activeIdx)
    {
      if pidx < |ctrl| {
        ctrl := RemoveAt(ctrl, pidx);
      }
      sel := DeleteSelection(sel, pidx);
    }

    /**
     * The insertion of the mouse point: appended when the curve has fewer
     * than two points, otherwise after the segment nearest to the mouse.
     * The new point becomes the only selected one and the active one.
     */
    method InsertNearest(mouse: Point) returns (newIdx: nat)
      modifies this
      ensures |old(ctrl)| < 2 ==> ctrl == old(ctrl) + [mouse] && newIdx == |old(ctrl)|
      ensures |old(ctrl)| >= 2 ==>
                && 1 <= newIdx <= |old(ctrl)|
                && InsertSegment(old(ctrl), closedLocked, mouse, newIdx - 1)
                && ctrl == InsertAt(old(ctrl), newIdx, mouse)
      ensures |ctrl| == |old(ctrl)| + 1 && ctrl[newIdx] == mouse
      ensures sel == {newIdx} && activeIdx == newIdx
    {
      var c := ctrl;
      if |c| < 2 {
        newIdx := |c|;
        ctrl := c + [mouse];
      } else {
        var best := NearestSegment(c, closedLocked, mouse);
        newIdx := best + 1;
        InsertSegmentAt(c, closedLocked, mouse, best, newIdx - 1);
        ctrl := InsertAt(c, newIdx, mouse);
        sel := InsertShift(sel, newIdx);
      }
      sel := {newIdx};
      activeIdx := newIdx;
    }
  }

  // ---------------------------------------------------------------------
  // The editor state
  // ---------------------------------------------------------------------

  /** `any(c.closed_locked for c in curves)`. */
  function AnyClosed(cs: seq<CurveData>): (r: bool)
    ensures r <==> exists i :: 0 <= i < |cs| && cs[i].closedLocked
  {
    if cs == [] then false
    else if cs[0].closedLocked then true
    else
      var rest := AnyClosed(cs[1..]);
      assert rest ==> exists i :: 0 <= i < |cs| && cs[i].closedLocked by {
        if rest {
          var i :| 0 <= i < |cs[1..]| && cs[1..][i].closedLocked;
          assert cs[i + 1].closedLocked;
        }
      }
      assert (exists i :: 0 <= i < |cs| && cs[i].closedLocked) ==> rest by {
        if exists i :: 0 <= i < |cs| && cs[i].closedLocked {
          var i :| 0 <= i < |cs| && cs[i].closedLocked;
          assert cs[1..][i - 1].closedLocked;
        }
      }
      rest
  }

  /** The selections of n curves when point pidx of curve cidx is the one selected and active point. */
  function SingleSelection(n: nat, cidx: int, pidx: nat): (r: seq<(set<nat>, int)>)
    ensures |r| == n
    ensures forall i :: 0 <= i < n ==> r[i] == if i == cidx then ({pidx}, pidx as int) else ({}, -1)
  {
    seq(n, i => if i == cidx then ({pidx}, pidx as int) else ({}, -1))
  }

  /** MultiSplineState: the curves being edited, the active curve and the shared point count. */
  class MultiSplineState {
    const curves: seq<CurveData>
    var activeCurve: int
    var globalPoints: int

    constructor (cs: seq<CurveData>)
      ensures curves == cs && activeCurve == -1 && globalPoints == 0
    {
      curves := cs;
      activeCurve := -1;
      globalPoints := 0;
    }

    /** Every curve is a separate object and well formed. */
    ghost predicate Valid() {
      && (forall i, j :: 0 <= i < j < |curves| ==> curves[i] != curves[j])
      && (forall i :: 0 <= i < |curves| ==> curves[i].WellFormed())
    }

    /** `all_closed_min`: a closed curve needs three control points, an open one two. */
    function AllClosedMin(): (m: int)
      ensures (exists i :: 0 <= i < |curves| && curves[i].closedLocked) ==> m == 3
      ensures (forall i :: 0 <= i < |curves| ==> !curves[i].closedLocked) ==> m == 2
    {
      if AnyClosed(curves) then 3 else 2
    }

    /** `_clamp_global`: the count held within [all_closed_min, 30]. */
    function ClampGlobal(n: int): (r: int)
      ensures AllClosedMin() <= r <= MaxPoints
      ensures AllClosedMin() <= n <= MaxPoints ==> r == n
      ensures n > MaxPoints ==> r == MaxPoints
      ensures n < AllClosedMin() ==> r == AllClosedMin()
    {
      var upper := if n < MaxPoints then n else MaxPoints;
      if upper > AllClosedMin() then upper else AllClosedMin()
    }

    /** The control points of every curve. */
    function Ctrls(): (r: seq<seq<Point>>)
      reads curves
      ensures |r| == |curves| && forall i :: 0 <= i < |curves| ==> r[i] == curves[i].ctrl
    {
      seq(|curves|, i requires 0 <= i < |curves| reads curves => curves[i].ctrl)
    }

    /** `_resample_all_from_original(count)`. */
    method ResampleAllFromOriginal(count: int, dist: Metric<Point>)
      requires Valid()
      modifies this, curves
      ensures globalPoints == count && activeCurve == old(activeCurve)
      ensures forall i :: 0 <= i < |curves| ==>
                curves[i].ResampledOriginal(count, old(curves[i].sel), dist) && curves[i].activeIdx == old(curves[i].activeIdx)
      ensures count >= 0 ==> forall i :: 0 <= i < |curves| ==> |curves[i].ctrl| == count
      ensures forall i, j :: 0 <= i < |curves| && j in curves[i].sel ==> j < count
    {
      ghost var sel0 := seq(|curves|, k requires 0 <= k < |curves| reads curves => curves[k].sel);
      ghost var active0 := seq(|curves|, k requires 0 <= k < |curves| reads curves => curves[k].activeIdx);
      for i := 0 to |curves|
        invariant forall k :: 0 <= k < i ==>
                    curves[k].ResampledOriginal(count, sel0[k], dist) && curves[k].activeIdx == active0[k]
        invariant count >= 0 ==> forall k :: 0 <= k < i ==> |curves[k].ctrl| == count
        invariant forall k, j :: 0 <= k < i && j in curves[k].sel ==> j < count
        invariant forall k :: i <= k < |curves| ==> curves[k].sel == sel0[k] && curves[k].activeIdx == active0[k]
        invariant activeCurve == old(activeCurve)
      {
        assert forall k :: 0 <= k < |curves| && k != i ==> curves[k] != curves[i];
        curves[i].ResampleFromOriginal(count, dist);
      }
      globalPoints := count;
    }

    /** `_resample_all_from_current(count)`. */
    method ResampleAllFromCurrent(count: int, dist: Metric<Point>)
      requires Valid()
      modifies this, curves
      ensures globalPoints == count && activeCurve == old(activeCurve)
      ensures forall i :: 0 <= i < |curves| ==>
                curves[i].ResampledCurrent(count, old(curves[i].ctrl), old(curves[i].sel), dist) &&
                curves[i].activeIdx == old(curves[i].activeIdx)
    {
      ghost var ctrl0 := seq(|curves|, k requires 0 <= k < |curves| reads curves => curves[k].ctrl);
      ghost var sel0 := seq(|curves|, k requires 0 <= k < |curves| reads curves => curves[k].sel);
      ghost var active0 := seq(|curves|, k requires 0 <= k < |curves| reads curves => curves[k].activeIdx);
      for i := 0 to |curves|
        invariant forall k :: 0 <= k < i ==>
                    curves[k].ResampledCurrent(count, ctrl0[k], sel0[k], dist) && curves[k].activeIdx == active0[k]
        invariant forall k :: i <= k < |curves| ==>
                    curves[k].ctrl == ctrl0[k] && curves[k].sel == sel0[k] && curves[k].activeIdx == active0[k]
        invariant activeCurve == old(activeCurve)
      {
        assert forall k :: 0 <= k < |curves| && k != i ==> curves[k] != curves[i];
        curves[i].ResampleFromCurrent(count, dist);
      }
      globalPoints := count;
    }

    /** `_clear_selection`. */
    method ClearSelection()
      requires Valid()
      modifies curves
      ensures forall i :: 0 <= i < |curves| ==>
                curves[i].sel == {} && curves[i].activeIdx == -1 && curves[i].ctrl == old(curves[i].ctrl)
    {
      for i := 0 to |curves|
        invariant forall k :: 0 <= k < i ==> curves[k].sel == {} && curves[k].activeIdx == -1
        invariant forall k :: 0 <= k < |curves| ==> curves[k].ctrl == old(curves[k].ctrl)
      {
        curves[i].sel := {};
        curves[i].activeIdx := -1;
      }
    }

    /** The selection and the active point of every curve. */
    ghost function Selections(): (r: seq<(set<nat>, int)>)
      reads curves
      ensures |r| == |curves|
      ensures forall i :: 0 <= i < |curves| ==> r[i] == (curves[i].sel, curves[i].activeIdx)
    {
      seq(|curves|, i requires 0 <= i < |curves| reads curves => (curves[i].sel, curves[i].activeIdx))
    }

    /** `_set_active_single`: point pidx of curve cidx becomes the one selected and active point. */
    method SetActiveSingle(cidx: int, pidx: nat)
      requires Valid()
      modifies this, curves
      ensures activeCurve == cidx && globalPoints == old(globalPoints)
      ensures forall i :: 0 <= i < |curves| ==> curves[i].ctrl == old(curves[i].ctrl)
      ensures Ctrls() == old(Ctrls())
      ensures forall i :: 0 <= i < |curves| && i == cidx ==> curves[i].sel == {pidx} && curves[i].activeIdx == pidx
      ensures forall i :: 0 <= i < |curves| && i != cidx ==> curves[i].sel == {} && curves[i].activeIdx == -1
    {
      for i := 0 to |curves|
        invariant forall k :: 0 <= k < |curves| ==> curves[k].ctrl == old(curves[k].ctrl)
        invariant forall k :: 0 <= k < i && k == cidx ==> curves[k].sel == {pidx} && curves[k].activeIdx == pidx
        invariant forall k :: 0 <= k < i && k != cidx ==> curves[k].sel == {} && curves[k].activeIdx == -1
        invariant globalPoints == old(globalPoints)
      {
        if i == cidx {
          curves[i].sel := {pidx};
          curves[i].activeIdx := pidx;
        } else {
          curves[i].sel := {};
          curves[i].activeIdx := -1;
        }
      }
      activeCurve := cidx;
    }

    /**
     * `_toggle_select`: pidx enters or leaves curve cidx's selection. An
     * added point becomes active; when the active point leaves, some other
     * selected point (the set's first in iteration order) or -1 takes over.
     */
    method ToggleSelect(cidx: nat, pidx: nat)
      requires cidx < |curves|
      modifies this, curves[cidx]
      ensures activeCurve == cidx && globalPoints == old(globalPoints)
      ensures curves[cidx].ctrl == old(curves[cidx].ctrl)
      ensures forall j :: j != pidx ==> (j in curves[cidx].sel <==> j in old(curves[cidx].sel))
      ensures pidx in curves[cidx].sel <==> pidx !in old(curves[cidx].sel)
      ensures pidx !in old(curves[cidx].sel) ==> curves[cidx].activeIdx == pidx
      ensures pidx in old(curves[cidx].sel) && old(curves[cidx].activeIdx) == pidx ==>
                if curves[cidx].sel == {} then curves[cidx].activeIdx == -1 else curves[cidx].activeIdx in curves[cidx].sel
      ensures pidx in old(curves[cidx].sel) && old(curves[cidx].activeIdx) != pidx ==>
                curves[cidx].activeIdx == old(curves[cidx].activeIdx)
    {
      var c := curves[cidx];
      if pidx in c.sel {
        c.sel := c.sel - {pidx};
        if c.activeIdx == pidx {
          if c.sel == {} {
            c.activeIdx := -1;
          } else {
            var next :| next in c.sel;
            c.activeIdx := next;
          }
        }
      } else {
        c.sel := c.sel + {pidx};
        c.activeIdx := pidx;
      }
      activeCurve := cidx;
    }

    /** The smallest selected index of a curve, or -1 (`next(iter(sorted(sel)), -1)`). */
    static method SmallestSelected(sel: set<nat>) returns (m: int)
      ensures sel == {} ==> m == -1
      ensures sel != {} ==> m in sel && forall j :: j in sel ==> m <= j
    {
      m := -1;
      var rest := sel;
      while rest != {}
        invariant rest <= sel
        invariant m == -1 ==> rest == sel
        invariant m != -1 ==> m in sel && forall j :: j in sel && j !in rest ==> m <= j
        decreases |rest|
      {
        var x :| x in rest;
        if m == -1 || x < m {
          m := x;
        }
        rest := rest - {x};
      }
    }

    /**
     * Ctrl+click delete: point pidx of curve cidx goes, the selection
     * follows the shift, and the active index keeps naming the same point;
     * when the active point was the one deleted, the smallest selected index
     * (or -1) becomes active. Curve cidx becomes the active curve.
     */
    method DeleteWithActive(cidx: nat, pidx: nat)
      requires cidx < |curves|
      modifies this, curves[cidx]
      ensures activeCurve == cidx && globalPoints == old(globalPoints)
      ensures var c := curves[cidx];
              && (pidx < |old(c.ctrl)| ==> c.ctrl == RemoveAt(old(c.ctrl), pidx))
              && (pidx >= |old(c.ctrl)| ==> c.ctrl == old(c.ctrl))
              && c.sel == DeleteSelection(old(c.sel), pidx)
      ensures var c := curves[cidx];
              old(c.activeIdx) == pidx ==>
                if c.sel == {} then c.activeIdx == -1 else c.activeIdx in c.sel && forall j :: j in c.sel ==> c.activeIdx <= j
      ensures var c := curves[cidx];
              && (old(c.activeIdx) > pidx ==> c.activeIdx == old(c.activeIdx) - 1)
              && (old(c.activeIdx) < pidx ==> c.activeIdx == old(c.activeIdx))
    {
      var c := curves[cidx];
      var a := c.activeIdx;
      c.RemovePoint(pidx);
      if a == pidx {
        a := SmallestSelected(c.sel);
      } else if a > pidx {
        a := a - 1;
      }
      c.activeIdx := a;
      activeCurve := cidx;
    }

    /** The Del key: the same deletion, without touching the active index or the active curve. */
    method DeleteKey(cidx: nat, pidx: nat)
      requires cidx < |curves|
      modifies curves[cidx]
      ensures var c := curves[cidx];
              && (pidx < |old(c.ctrl)| ==> c.ctrl == RemoveAt(old(c.ctrl), pidx))
              && (pidx >= |old(c.ctrl)| ==> c.ctrl == old(c.ctrl))
              && c.sel == DeleteSelection(old(c.sel), pidx)
              && c.activeIdx == old(c.activeIdx)
    {
      curves[cidx].RemovePoint(pidx);
    }

    /**
     * Click insert: the mouse point goes into curve pick (clamped to a
     * curve), becomes its only selected and active point, and every other
     * curve loses its selection.
     */
    method InsertPoint(pick: int, mouse: Point) returns (ac: nat, newIdx: nat)
      requires Valid() && |curves| > 0
      modifies this, curves
      ensures ac == ClampIndex(pick, |curves|) && activeCurve == ac && globalPoints == old(globalPoints)
      ensures var c := curves[ac];
              && (|old(c.ctrl)| < 2 ==> c.ctrl == old(c.ctrl) + [mouse] && newIdx == |old(c.ctrl)|)
              && (|old(c.ctrl)| >= 2 ==>
                    && 1 <= newIdx <= |old(c.ctrl)|
                    && InsertSegment(old(c.ctrl), c.closedLocked, mouse, newIdx - 1)
                    && c.ctrl == InsertAt(old(c.ctrl), newIdx, mouse))
              && |c.ctrl| == |old(c.ctrl)| + 1 && c.ctrl[newIdx] == mouse
              && c.sel == {newIdx} && c.activeIdx == newIdx
      ensures forall i :: 0 <= i < |curves| && i != ac ==>
                curves[i].sel == {} && curves[i].activeIdx == -1 && curves[i].ctrl == old(curves[i].ctrl)
    {
      ac := ClampIndex(pick, |curves|);
      newIdx := curves[ac].InsertNearest(mouse);
      activeCurve := ac;
      for i := 0 to |curves|
        invariant curves[ac].sel == {newIdx} && curves[ac].activeIdx == newIdx
        invariant curves[ac].ctrl == InsertAt(old(curves[ac].ctrl), newIdx, mouse)
        invariant forall k :: 0 <= k < |curves| && k != ac ==> curves[k].ctrl == old(curves[k].ctrl)
        invariant forall k :: 0 <= k < i && k != ac ==> curves[k].sel == {} && curves[k].activeIdx == -1
        invariant activeCurve == ac && globalPoints == old(globalPoints)
      {
        if i != ac {
          curves[i].activeIdx := -1;
          curves[i].sel := {};
        }
      }
    }

    /** The selected points of every curve, as `_selected_points_snapshot` lists them. */
    ghost predicate SnapshotOf(snap: seq<DragEntry>)
      reads curves
    {
      && EntriesSorted(snap)
      && (forall k :: 0 <= k < |snap| ==> SnapshotEntry(snap[k]))
      && (forall ci, i :: Selected(ci, i) ==> exists k :: 0 <= k < |snap| && snap[k].curve == ci && snap[k].index == i)
    }

    /** Curve ci selects its control point i. */
    ghost predicate Selected(ci: int, i: nat)
      reads curves
    {
      0 <= ci < |curves| && i in curves[ci].sel && i < |curves[ci].ctrl|
    }

    /** Some curve has a selected index that names one of its control points. */
    ghost predicate SelectsAPoint()
      reads curves
    {
      exists ci, i :: Selected(ci, i)
    }

    /** A snapshot is empty exactly when no selected index names a control point. */
    lemma EmptySnapshot(snap: seq<DragEntry>)
      requires SnapshotOf(snap)
      ensures snap == [] <==> !SelectsAPoint()
    {
      if snap != [] {
        assert SnapshotEntry(snap[0]);
        assert Selected(snap[0].curve, snap[0].index);
      }
    }

    /** A selected point of a curve, in range, with its current position. */
    ghost predicate SnapshotEntry(e: DragEntry)
      reads curves
    {
      e.curve < |curves| && e.index in curves[e.curve].sel && e.index < |curves[e.curve].ctrl| &&
      e.base == curves[e.curve].ctrl[e.index]
    }

    /**
     * `_selected_points_snapshot`: for each curve in turn, its selected
     * indices in increasing order that name a control point, with that
     * point.
     */
    method SelectedSnapshot() returns (snap: seq<DragEntry>)
      ensures SnapshotOf(snap)
    {
      snap := [];
      for ci := 0 to |curves|
        invariant EntriesSorted(snap)
        invariant forall k :: 0 <= k < |snap| ==> SnapshotEntry(snap[k]) && snap[k].curve < ci
        invariant forall c, i :: 0 <= c < ci && i in curves[c].sel && i < |curves[c].ctrl| ==>
                    exists k :: 0 <= k < |snap| && snap[k].curve == c && snap[k].index == i
      {
        snap := SnapshotCurve(ci, snap);
      }
    }

    /** The entries of curve ci, appended after those of the curves before it. */
    method SnapshotCurve(ci: nat, snap0: seq<DragEntry>) returns (snap: seq<DragEntry>)
      requires ci < |curves|
      requires EntriesSorted(snap0)
      requires forall k :: 0 <= k < |snap0| ==> SnapshotEntry(snap0[k]) && snap0[k].curve < ci
      ensures EntriesSorted(snap) && snap0 <= snap
      ensures forall k :: 0 <= k < |snap| ==> SnapshotEntry(snap[k]) && snap[k].curve <= ci
      ensures forall i :: i in curves[ci].sel && i < |curves[ci].ctrl| ==>
                exists k :: 0 <= k < |snap| && snap[k].curve == ci && snap[k].index == i
    {
      var c := curves[ci];
      snap := snap0;
      for i := 0 to |c.ctrl|
        invariant EntriesSorted(snap) && snap0 <= snap
        invariant forall k :: 0 <= k < |snap| ==> SnapshotEntry(snap[k])
        invariant forall k :: 0 <= k < |snap| ==> snap[k].curve < ci || (snap[k].curve == ci && snap[k].index < i)
        invariant forall j :: j in c.sel && j < i ==> exists k :: 0 <= k < |snap| && snap[k].curve == ci && snap[k].index == j
      {
        if i in c.sel {
          var e := DragEntry(ci, i, c.ctrl[i]);
          assert SnapshotEntry(e);
          ghost var before := snap;
          snap := snap + [e];
          assert snap[|snap| - 1] == e;
          assert forall k :: 0 <= k < |before| ==> snap[k] == before[k];
        }
      }
    }

    /**
     * The selection after a drag picked what to move, from a selection
     * that selected some point (`selects0`), had the selections `sels0` and
     * the active curve `active0`: a selection that selected a point, or a
     * missing nearest point, is left as it was; otherwise the nearest point
     * becomes the one selected and active point. (Whether anything is
     * dragged then follows from `SnapshotOf` and `EmptySnapshot`.)
     */
    ghost predicate DragSelected(nearest: (int, int), selects0: bool, sels0: seq<(set<nat>, int)>, active0: int)
      reads this, curves
    {
      && (selects0 || nearest.0 < 0 || nearest.1 < 0 ==> activeCurve == active0 && Selections() == sels0)
      && (!selects0 && nearest.0 >= 0 && nearest.1 >= 0 ==>
            activeCurve == nearest.0 && Selections() == SingleSelection(|curves|, nearest.0, nearest.1))
    }

    /**
     * What a drag moves: the selected points, or, when none is selected,
     * the point `nearest` names (if any), which becomes the only selected one.
     */
    method DragSelection(nearest: (int, int)) returns (snap: seq<DragEntry>)
      requires Valid()
      modifies this, curves
      ensures SnapshotOf(snap) && Ctrls() == old(Ctrls())
      ensures globalPoints == old(globalPoints)
      ensures DragSelected(nearest, old(SelectsAPoint()), old(Selections()), old(activeCurve))
    {
      snap := SelectedSnapshot();
      EmptySnapshot(snap);
      if snap == [] && nearest.0 >= 0 && nearest.1 >= 0 {
        SetActiveSingle(nearest.0, nearest.1);
        snap := SelectedSnapshot();
      }
    }

    /** `_apply_drag` on the control points: every entry's point moves to base + delta. */
    method MoveSnapshot(data: seq<DragEntry>, delta: Point)
      requires Valid()
      requires forall k :: 0 <= k < |data| ==> data[k].curve < |curves|
      modifies curves
      ensures forall ci :: 0 <= ci < |curves| ==>
                && |curves[ci].ctrl| == |old(curves[ci].ctrl)|
                && curves[ci].sel == old(curves[ci].sel) && curves[ci].activeIdx == old(curves[ci].activeIdx)
      ensures forall ci, i :: 0 <= ci < |curves| && 0 <= i < |curves[ci].ctrl| ==>
                curves[ci].ctrl[i] == DragTarget(data, ci, i, old(curves[ci].ctrl[i]), delta)
    {
      for k := 0 to |data|
        invariant forall ci :: 0 <= ci < |curves| ==>
                    && |curves[ci].ctrl| == |old(curves[ci].ctrl)|
                    && curves[ci].sel == old(curves[ci].sel) && curves[ci].activeIdx == old(curves[ci].activeIdx)
        invariant forall ci, i :: 0 <= ci < |curves| && 0 <= i < |curves[ci].ctrl| ==>
                    curves[ci].ctrl[i] == DragTarget(data[..k], ci, i, old(curves[ci].ctrl[i]), delta)
      {
        var e := data[k];
        assert data[..k + 1][..k] == data[..k];
        var c := curves[e.curve];
        if e.index < |c.ctrl| {
          c.ctrl := c.ctrl[e.index := Add(e.base, delta)];
        }
      }
      assert data[..|data|] == data;
    }

    /** `_restore_ctrl` on the control points: each curve takes its copy from the backup (zip: as far as both go). */
    method RestoreFrom(backup: seq<seq<Point>>)
      requires Valid()
      modifies curves
      ensures forall i :: 0 <= i < |curves| ==>
                && curves[i].ctrl == (if i < |backup| then backup[i] else old(curves[i].ctrl))
                && curves[i].sel == old(curves[i].sel) && curves[i].activeIdx == old(curves[i].activeIdx)
    {
      var n := if |curves| < |backup| then |curves| else |backup|;
      for i := 0 to n
        invariant forall k :: 0 <= k < |curves| ==>
                    && curves[k].ctrl == (if k < i then backup[k] else old(curves[k].ctrl))
                    && curves[k].sel == old(curves[k].sel) && curves[k].activeIdx == old(curves[k].activeIdx)
      {
        curves[i].ctrl := backup[i];
      }
    }

    /** Every curve has the same number of control points as the first. */
    predicate SameLength()
      reads curves
    {
      forall i :: 0 <= i < |curves| ==> |curves[i].ctrl| == |curves[0].ctrl|
    }

    /**
     * The count `finish` saves on commit: the common count when all curves
     * agree, otherwise the active curve's, or the first curve's when no
     * curve is active; nothing without curves.
     */
    function SavedCount(): (r: Option<int>)
      reads this, curves
      ensures r.None? <==> curves == []
      ensures r.Some? ==> exists i :: 0 <= i < |curves| && r.value == |curves[i].ctrl|
      ensures r.Some? && 0 <= activeCurve < |curves| ==> r.value == |curves[activeCurve].ctrl|
      ensures r.Some? && SameLength() ==> r.value == |curves[0].ctrl|
    {
      if curves == [] then None
      else if SameLength() then Some(|curves[0].ctrl|)
      else if 0 <= activeCurve < |curves| then Some(|curves[activeCurve].ctrl|)
      else Some(|curves[0].ctrl|)
    }
  }

  // ---------------------------------------------------------------------
  // The session
  // ---------------------------------------------------------------------

  /**
   * UV_OT_spline_adjust_modal once opened: the editor state, the mesh whose
   * UVs it previews on, the weld tolerance, the control-point snapshot, the
   * welded backup, and the drag in progress. uv0 holds every loop's UV when
   * the editor opened.
   */
  class SplineSession {
    const ms: MultiSplineState
    const mesh: Mesh
    const weldTolerance: real
    ghost const uv0: seq<Point>
    var ctrlBackup: Option<seq<seq<Point>>>
    var weldedBackup: map<Handle, Point>
    var dragData: seq<DragEntry>
    var dragStart: Option<Point>

    /**
     * The welded backup holds the first UV the preview saw for each loop,
     * which is its UV when the editor opened, and every loop outside the
     * backup still has that UV.
     */
    ghost predicate BackupFaithful()
      reads this, mesh
    {
      && (forall h :: h in weldedBackup ==> h < |uv0| && weldedBackup[h] == uv0[h])
      && (forall h :: 0 <= h < |mesh.uv| && h !in weldedBackup ==> h < |uv0| && mesh.uv[h] == uv0[h])
    }

    /** Each curve's loops are loops of the mesh, with their UVs when the editor opened. */
    ghost predicate LoopsRecorded() {
      forall i, k :: 0 <= i < |ms.curves| && 0 <= k < |ms.curves[i].loops| ==>
        k < |ms.curves[i].origUvs| && ms.curves[i].loops[k] < |uv0| && ms.curves[i].origUvs[k] == uv0[ms.curves[i].loops[k]]
    }

    ghost predicate Valid()
      reads this, mesh
    {
      && ms.Valid() && mesh.Valid() && |uv0| == |mesh.uv|
      && LoopsRecorded() && BackupFaithful()
      && (ctrlBackup.Some? ==> |ctrlBackup.value| == |ms.curves|)
      && EntriesSorted(dragData)
      && (forall k :: 0 <= k < |dragData| ==> dragData[k].curve < |ms.curves|)
    }

    constructor (ms0: MultiSplineState, mesh0: Mesh, tol: real)
      requires ms0.Valid() && mesh0.Valid()
      requires forall i, k :: 0 <= i < |ms0.curves| && 0 <= k < |ms0.curves[i].loops| ==>
                 ms0.curves[i].loops[k] < |mesh0.uv| && ms0.curves[i].origUvs[k] == mesh0.uv[ms0.curves[i].loops[k]]
      ensures Valid()
      ensures ms == ms0 && mesh == mesh0 && weldTolerance == tol && uv0 == mesh0.uv
      ensures ctrlBackup == None && weldedBackup == map[] && dragData == [] && dragStart == None
    {
      ms := ms0;
      mesh := mesh0;
      weldTolerance := tol;
      uv0 := mesh0.uv;
      ctrlBackup := None;
      weldedBackup := map[];
      dragData := [];
      dragStart := None;
    }

    /**
     * A curve with too few control points or samples: its loops get their
     * original UVs back, without a backup, and nothing else changes.
     */
    method WriteOriginal(ci: nat)
      requires Valid() && ci < |ms.curves|
      modifies mesh
      ensures Valid() && |mesh.uv| == |old(mesh.uv)|
      ensures forall k :: 0 <= k < |ms.curves[ci].loops| ==> mesh.uv[ms.curves[ci].loops[k]] == ms.curves[ci].origUvs[k]
      ensures forall h :: 0 <= h < |mesh.uv| && h !in ms.curves[ci].loops ==> mesh.uv[h] == old(mesh.uv[h])
    {
      var c := ms.curves[ci];
      for k := 0 to |c.loops|
        invariant Valid() && |mesh.uv| == |old(mesh.uv)|
        invariant forall j :: 0 <= j < k ==> mesh.uv[c.loops[j]] == c.origUvs[j]
        invariant forall h :: 0 <= h < |mesh.uv| && h !in c.loops ==> mesh.uv[h] == old(mesh.uv[h])
      {
        var h := c.loops[k];
        mesh.uv := mesh.uv[h := c.origUvs[k]];
      }
    }

    /**
     * The write of one loop's preview point: every loop welded to l takes p,
     * and a loop not in the backup yet enters it with the UV it had before,
     * so the backup keeps the first value it saw.
     */
    method WriteWelded(l: Handle, p: Point) returns (group: seq<Handle>)
      requires Valid() && l < |mesh.uv|
      modifies this`weldedBackup, mesh
      ensures Valid() && |mesh.uv| == |old(mesh.uv)|
      ensures forall h :: h in group <==> old(mesh.Welded(h, l, weldTolerance))
      ensures forall h :: 0 <= h < |mesh.uv| ==> mesh.uv[h] == if h in group then p else old(mesh.uv[h])
      ensures forall h :: h in weldedBackup <==> h in old(weldedBackup) || h in group
      ensures forall h :: h in weldedBackup ==>
                weldedBackup[h] == if h in old(weldedBackup) then old(weldedBackup[h]) else old(mesh.uv[h])
    {
      group := mesh.GatherWelded(l, weldTolerance);
      forall i | 0 <= i < |group|
        ensures group[i] < |mesh.uv|
      {
        assert mesh.Welded(group[i], l, weldTolerance);
      }
      for j := 0 to |group|
        invariant Valid() && |mesh.uv| == |old(mesh.uv)|
        invariant forall i :: 0 <= i < |group| ==> group[i] < |mesh.uv|
        invariant forall h :: 0 <= h < |mesh.uv| ==> mesh.uv[h] == if h in group[..j] then p else old(mesh.uv[h])
        invariant forall h :: h in weldedBackup <==> h in old(weldedBackup) || h in group[..j]
        invariant forall h :: h in weldedBackup ==>
                    weldedBackup[h] == if h in old(weldedBackup) then old(weldedBackup[h]) else old(mesh.uv[h])
      {
        assert group[..j + 1] == group[..j] + [group[j]];
        WriteOne(group[j], p);
      }
      assert group[..|group|] == group;
    }

    /** One loop of a welded write: back up its UV unless already backed up, then write p. */
    method WriteOne(h: Handle, p: Point)
      requires Valid() && h < |mesh.uv|
      modifies this`weldedBackup, mesh
      ensures Valid() && mesh.uv == old(mesh.uv)[h := p]
      ensures weldedBackup == if h in old(weldedBackup) then old(weldedBackup) else old(weldedBackup)[h := old(mesh.uv[h])]
    {
      if h !in weldedBackup {
        weldedBackup := weldedBackup[h := mesh.uv[h]];
      }
      mesh.uv := mesh.uv[h := p];
    }

    /**
     * The preview of one curve: each of its loops and everything welded to
     * it takes the point at the loop's fraction along the drawn curve.
     */
    method PreviewCurve(ci: nat, dist: Metric<Point>)
      requires Valid() && ci < |ms.curves|
      modifies this`weldedBackup, mesh
      ensures Valid() && |mesh.uv| == |old(mesh.uv)|
      ensures old(weldedBackup).Keys <= weldedBackup.Keys
    {
      var c := ms.curves[ci];
      if |c.ctrl| < 2 {
        WriteOriginal(ci);
        return;
      }
      var samples, _ := SamplePolyline(c.ctrl, Resolution, Bezier, Some(c.closedLocked), dist);
      if |samples| < 2 {
        WriteOriginal(ci);
        return;
      }
      var lens, sum := LengthsAndTotal(samples, c.closedLocked, dist);
      var total := if sum > 0.0 then sum else 1.0;
      for k := 0 to |c.loops|
        invariant Valid() && |mesh.uv| == |old(mesh.uv)|
        invariant old(weldedBackup).Keys <= weldedBackup.Keys
      {
        var p := PointAtFraction(samples, lens, c.closedLocked, total, c.origFractions[k]);
        var _ := WriteWelded(c.loops[k], p);
      }
    }

    /** `_apply_preview_all`: every curve in turn. */
    method ApplyPreview(dist: Metric<Point>)
      requires Valid()
      modifies this`weldedBackup, mesh
      ensures Valid() && |mesh.uv| == |old(mesh.uv)|
      ensures old(weldedBackup).Keys <= weldedBackup.Keys
    {
      for ci := 0 to |ms.curves|
        invariant Valid() && |mesh.uv| == |old(mesh.uv)|
        invariant old(weldedBackup).Keys <= weldedBackup.Keys
      {
        PreviewCurve(ci, dist);
      }
    }

    /** `_snapshot_ctrl`: a copy of every curve's control points. */
    method SnapshotCtrl()
      requires Valid()
      modifies this`ctrlBackup
      ensures Valid() && ctrlBackup == Some(ms.Ctrls())
    {
      ctrlBackup := Some(ms.Ctrls());
    }

    /**
     * `_restore_ctrl`: with a snapshot, every curve gets its snapshot
     * control points back and the preview is redrawn; without one nothing
     * happens.
     */
    method RestoreCtrl(dist: Metric<Point>)
      requires Valid()
      modifies ms.curves, this`weldedBackup, mesh
      ensures Valid()
      ensures ctrlBackup.Some? ==> ms.Ctrls() == ctrlBackup.value
      ensures ctrlBackup.None? ==> mesh.uv == old(mesh.uv) && ms.Ctrls() == old(ms.Ctrls())
    {
      if ctrlBackup.Some? {
        ms.RestoreFrom(ctrlBackup.value);
        ApplyPreview(dist);
      }
    }

    /**
     * `_start_drag_from_selection`: snapshot the control points, then drag
     * the selected points, or the point nearest to the mouse (found by the
     * caller) when nothing is selected. No drag starts when there is
     * nothing to move.
     */
    method StartDrag(start: Point, nearest: (int, int)) returns (started: bool)
      requires Valid()
      modifies this, ms, ms.curves
      ensures Valid()
      ensures ctrlBackup == Some(old(ms.Ctrls())) && ms.Ctrls() == old(ms.Ctrls())
      ensures weldedBackup == old(weldedBackup)
      ensures started <==> dragData != []
      ensures ms.SnapshotOf(dragData)
      ensures started ==> dragStart == Some(start)
      ensures !started ==> dragStart == None
      ensures ms.DragSelected(nearest, old(ms.SelectsAPoint()), old(ms.Selections()), old(ms.activeCurve))
    {
      // The control points are snapshotted first; picking the drag leaves them as they are.
      var backup := ms.Ctrls();
      var data := ms.DragSelection(nearest);
      started := data != [];
      RecordDrag(backup, data, if started then Some(start) else None);
    }

    /** The control-point backup, the entries a drag moves and where it started, recorded together. */
    method RecordDrag(backup: seq<seq<Point>>, data: seq<DragEntry>, start: Option<Point>)
      requires Valid() && |backup| == |ms.curves| && ms.SnapshotOf(data)
      modifies this`ctrlBackup, this`dragData, this`dragStart
      ensures Valid() && ctrlBackup == Some(backup) && dragData == data && dragStart == start
    {
      assert forall k :: 0 <= k < |data| ==> ms.SnapshotEntry(data[k]);
      ctrlBackup, dragData, dragStart := Some(backup), data, start;
    }

    /**
     * `_apply_drag`: every dragged point moves to its snapshot position plus
     * the mouse offset since the drag started, then the preview is redrawn.
     */
    method ApplyDrag(cur: Point, dist: Metric<Point>)
      requires Valid() && dragStart.Some?
      modifies ms.curves, this`weldedBackup, mesh
      ensures Valid()
      ensures forall ci :: 0 <= ci < |ms.curves| ==>
                && |ms.curves[ci].ctrl| == |old(ms.curves[ci].ctrl)|
                && ms.curves[ci].sel == old(ms.curves[ci].sel)
      ensures forall ci, i :: 0 <= ci < |ms.curves| && 0 <= i < |ms.curves[ci].ctrl| ==>
                ms.curves[ci].ctrl[i] == DragTarget(dragData, ci, i, old(ms.curves[ci].ctrl[i]), Sub(cur, dragStart.value))
    {
      var delta := Sub(cur, dragStart.value);
      if dragData != [] {
        ms.MoveSnapshot(dragData, delta);
        ApplyPreview(dist);
      }
    }

    /**
     * `finish(cancel=True)`: every backed-up loop gets its backup, the
     * backup is emptied, and every curve's loops get their original UVs.
     * The mesh ends with exactly the UVs it had when the editor opened.
     */
    method Cancel()
      requires Valid()
      modifies this`weldedBackup, mesh
      ensures Valid() && weldedBackup == map[]
      ensures mesh.uv == uv0
    {
      var keys := weldedBackup.Keys;
      while keys != {}
        invariant keys <= weldedBackup.Keys
        invariant mesh.Valid() && |mesh.uv| == |uv0|
        invariant forall h :: 0 <= h < |mesh.uv| && h !in keys ==> mesh.uv[h] == uv0[h]
        invariant Valid()
        decreases |keys|
      {
        var h :| h in keys;
        if h < |mesh.uv| {
          mesh.uv := mesh.uv[h := weldedBackup[h]];
        }
        keys := keys - {h};
      }
      weldedBackup := map[];
      for ci := 0 to |ms.curves|
        invariant Valid() && weldedBackup == map[]
      {
        WriteOriginal(ci);
      }
      assert forall h :: 0 <= h < |mesh.uv| ==> mesh.uv[h] == uv0[h];
    }
  }
}
