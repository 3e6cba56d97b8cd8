/**
 * The two equalize operators of operators/equalize.py, path by path:
 * UV_OT_loop_equalize spaces the points of every selected UV loop evenly by
 * arc length, pass after pass until the points settle or a pass budget runs
 * out; UV_OT_loop_equalize_straight_open puts the points of every open loop
 * evenly on the chord between its two ends and leaves closed loops alone.
 *
 * Both pin the ends of open paths and every junction (a key whose degree
 * in the component is not 2), and write a new UV to every loop welded to a
 * loop of a movable key, each loop at most once per pass.
 */
module Equalize {
  import opened Geometry
  import opened Wrappers
  import opened Polyline
  import opened Topology
  import opened MeshPass

  /** `iter_mode`: 'AUTO' repeats until converged (with a cap), 'COUNT' a fixed number of times. */
  datatype IterMode = UntilConverged | FixedCount

  /** The operator properties the per-path body reads. */
  datatype Settings = Settings(
    closedLoop: LoopKind,
    repeatClosedOnly: bool,
    weldTolerance: real,
    iterMode: IterMode,
    iterCount: int,
    autoMaxIter: int,
    convergeEpsilon: real,
    spacingCvTol: real)

  /** The counters execute keeps over all paths, reported at the end. */
  datatype Stats = Stats(
    processed: nat,
    movedVis: nat,
    skipped: nat,
    countOpen: nat,
    countClosed: nat,
    totalIters: nat,
    totalPaths: nat)

  // ---------------------------------------------------------------------
  // Loop type and movable mask

  /**
   * `is_closed` of a path: forced by 'OPEN' and 'CLOSED'; under 'AUTO',
   * closed exactly when the path has at least 3 keys and every key has
   * degree 2 in the component's subgraph. The flag the walk returned is
   * discarded.
   */
  function ResolveClosed(kind: LoopKind, sub: Graph, keys: seq<Key>): (closed: bool)
    ensures kind == Open ==> !closed
    ensures kind == Closed ==> closed
    ensures kind == Auto ==> (closed <==> |keys| >= 3 && forall k :: k in keys ==> Degree(sub, k) == 2)
  {
    match kind
    case Open => false
    case Closed => true
    case Auto => ClosedBy(AllDegreeTwo, sub, keys)
  }

  /**
   * Under 'AUTO' a path rooted at a key of degree 1 is open, and a path the
   * degree rule flags is resolved to that flag: the override agrees with
   * every path the degree-rule walk returns.
   */
  lemma AutoAgreesWithDegreeWalk(sub: Graph, p: Path)
    requires p.keys != []
    requires p.closed == ClosedBy(AllDegreeTwo, sub, p.keys) || (!p.closed && Degree(sub, p.keys[0]) == 1)
    ensures ResolveClosed(Auto, sub, p.keys) == p.closed
  {
    if !p.closed && Degree(sub, p.keys[0]) == 1 {
      assert p.keys[0] in p.keys;
    }
  }

  /** A key of the path that is one of its two ends. */
  predicate IsEnd(keys: seq<Key>, k: Key) {
    |keys| >= 2 && (k == keys[0] || k == keys[|keys| - 1])
  }

  /**
   * `endpoint_keys`: the two end keys of an open path of at least two keys,
   * and every key of the path whose degree in the subgraph is not 2.
   */
  function Pinned(sub: Graph, keys: seq<Key>, closed: bool): (pinned: set<Key>)
    ensures forall k :: k in pinned <==> k in keys && (Degree(sub, k) != 2 || (!closed && IsEnd(keys, k)))
  {
    set k | k in keys && (Degree(sub, k) != 2 || (!closed && IsEnd(keys, k)))
  }

  /**
   * `movable_mask`: one flag per key, false for the pinned keys. A key is
   * movable exactly when it has degree 2 and, on an open path, is not one
   * of the two end keys (wherever in the path it appears).
   */
  function MovableMask(sub: Graph, keys: seq<Key>, closed: bool): (movable: seq<bool>)
    ensures |movable| == |keys|
    ensures forall i :: 0 <= i < |keys| ==>
              (movable[i] <==> Degree(sub, keys[i]) == 2 && (closed || !IsEnd(keys, keys[i])))
  {
    var pinned := Pinned(sub, keys, closed);
    seq(|keys|, i requires 0 <= i < |keys| => keys[i] !in pinned)
  }

  /** Both ends of an open path and every junction stay where they are. */
  lemma EndsAndJunctionsPinned(sub: Graph, keys: seq<Key>, closed: bool, i: nat)
    requires i < |keys|
    requires (!closed && (i == 0 || i == |keys| - 1) && |keys| >= 2) || Degree(sub, keys[i]) != 2
    ensures !MovableMask(sub, keys, closed)[i]
  {
  }

  /** On a closed path whose keys all have degree 2, every key moves. */
  lemma ClosedRingAllMovable(sub: Graph, keys: seq<Key>)
    requires forall k :: k in keys ==> Degree(sub, k) == 2
    ensures forall i :: 0 <= i < |keys| ==> MovableMask(sub, keys, true)[i]
  {
    var m := MovableMask(sub, keys, true);
    forall i | 0 <= i < |keys|
      ensures m[i]
    {
      assert keys[i] in keys;
    }
  }

  // ---------------------------------------------------------------------
  // Iteration budget

  /** `max(1, n)`. */
  function AtLeastOne(n: int): (r: nat)
    ensures r >= 1 && r >= n
    ensures n >= 1 ==> r == n
  {
    if n >= 1 then n else 1
  }

  /** The number of passes and whether a pass may stop the loop early. */
  datatype Budget = Budget(maxIter: nat, stopOnConverge: bool)

  /**
   * `max_iter` and `stop_on_converge` of a path: 'COUNT' runs
   * `max(1, iter_count)` passes and never stops early, 'AUTO' at most
   * `max(1, auto_max_iter)` and stops once converged; with
   * `repeat_closed_only`, an open path gets exactly one pass.
   */
  function IterationBudget(s: Settings, closed: bool): (b: Budget)
    ensures b.maxIter >= 1
    ensures s.repeatClosedOnly && !closed ==> b == Budget(1, false)
    ensures !(s.repeatClosedOnly && !closed) && s.iterMode == FixedCount ==>
              b == Budget(AtLeastOne(s.iterCount), false)
    ensures !(s.repeatClosedOnly && !closed) && s.iterMode == UntilConverged ==>
              b == Budget(AtLeastOne(s.autoMaxIter), true)
  {
    if s.repeatClosedOnly && !closed then Budget(1, false)
    else if s.iterMode == FixedCount then Budget(AtLeastOne(s.iterCount), false)
    else Budget(AtLeastOne(s.autoMaxIter), true)
  }

  /**
   * `eps_pos = max(converge_epsilon, weld_tolerance * 0.5)`: a pass that
   * moves no point further than half a weld cell counts as converged.
   */
  function EpsPos(s: Settings): (e: real)
    ensures e >= s.convergeEpsilon && e >= s.weldTolerance * 0.5
    ensures e == s.convergeEpsilon || e == s.weldTolerance * 0.5
  {
    Max(s.convergeEpsilon, s.weldTolerance * 0.5)
  }

  // ---------------------------------------------------------------------
  // One pass

  /** How one pass of the iteration loop ended. */
  datatype PassOutcome =
    | Unreadable
    | TooFew
    | Moved(current: seq<Point>, evened: seq<Point>, idxMap: seq<nat>, spaced: seq<Point>, newUvs: seq<Point>,
            dmax: real, cvWithin: bool)

  /** Every coordinate of every point lies in [-0.5, 0.5]. */
  ghost predicate Wrapped(points: seq<Point>) {
    forall j :: 0 <= j < |points| ==> -0.5 <= points[j].x <= 0.5 && -0.5 <= points[j].y <= 0.5
  }

  /** The polyline a pass works on: the UVs as read, unwrapped across the seam when asked. */
  function Processed(pts: seq<Point>, unwrap: bool): (proc: seq<Point>)
    ensures |proc| == |pts|
    ensures |pts| > 0 ==> proc[0] == pts[0]
    ensures !unwrap ==> proc == pts
  {
    if unwrap && |pts| > 0 then seq(|pts|, i requires 0 <= i < |pts| => if i == 0 then pts[0] else Unwrapped(pts, i))
    else pts
  }

  /** Enough distinct points to redistribute: 3 on a closed path, 2 on an open one. */
  ghost predicate EnoughPoints(pts: seq<Point>, closed: bool, unwrap: bool, dist: Metric<Point>) {
    |DedupPoints(Processed(pts, unwrap), closed, DedupEps, dist)| >= (if closed then 3 else 2)
  }

  /**
   * What a pass computes from the points it read: `evened` is the
   * deduplicated polyline (unwrapped across the seam when asked)
   * redistributed evenly, with an open path's ends kept; `spaced` is it
   * wrapped back when unwrapped; `idxMap` is the dedup index of every key
   * and `newUvs` gives every key the new point of its dedup index.
   */
  ghost predicate Respaced(pts: seq<Point>, closed: bool, unwrap: bool, dist: Metric<Point>, evened: seq<Point>,
                           idxMap: seq<nat>, spaced: seq<Point>, newUvs: seq<Point>) {
    var proc := Processed(pts, unwrap);
    && Redistributed(evened, DedupPoints(proc, closed, DedupEps, dist), !closed, closed, DedupEps, dist)
    && DedupIndex(proc, closed, DedupEps, dist, idxMap)
    && spaced == (if unwrap then Wrap01(evened) else evened)
    && |spaced| > 0
    && newUvs == ByKey(spaced, idxMap)
  }

  /**
   * The point half of a pass: unwrap, deduplicate, redistribute evenly with
   * the ends of an open path kept, wrap back, and give every key the new
   * point of its dedup index.
   */
  method Respace(pts: seq<Point>, closed: bool, unwrap: bool, dist: Metric<Point>)
    returns (ok: bool, evened: seq<Point>, idxMap: seq<nat>, spaced: seq<Point>, newUvs: seq<Point>)
    ensures ok <==> EnoughPoints(pts, closed, unwrap, dist)
    ensures ok ==> Respaced(pts, closed, unwrap, dist, evened, idxMap, spaced, newUvs)
    ensures ok ==>
              && |pts| > 0 && |newUvs| == |pts|
              && (!unwrap ==> spaced[0] == pts[0])
              && (unwrap ==> Wrapped(spaced))
  {
    var proc := pts;
    if unwrap {
      proc := UnwrapCycle01(pts);
      assert proc == Processed(pts, unwrap);
    }
    var dedup, im, raw := DedupWithMap(proc, closed, DedupEps, dist);
    idxMap := im;
    assert DedupIndex(proc, closed, DedupEps, dist, idxMap);
    if (closed && |dedup| < 3) || (!closed && |dedup| < 2) {
      return false, [], idxMap, [], [];
    }
    ok := true;
    evened := RedistributeEvenly(dedup, !closed, closed, DedupEps, dist);
    spaced := evened;
    if unwrap {
      spaced := Wrap01(evened);
    }
    RedistributedStart(evened, dedup, closed, dist);
    newUvs := ByKey(spaced, idxMap);
  }

  /** A redistribution of at least two points starts at the first one, or at the first deduplicated one. */
  lemma RedistributedStart(r: seq<Point>, points: seq<Point>, closed: bool, dist: Metric<Point>)
    requires |points| >= 2
    requires Redistributed(r, points, !closed, closed, DedupEps, dist)
    ensures |r| > 0 && r[0] == points[0]
  {
  }

  /** A pass stops the loop early when its largest movable displacement or its spacing variation is small enough. */
  predicate Converged(out: PassOutcome, epsPos: real) {
    out.Moved? && (out.dmax <= epsPos || out.cvWithin)
  }

  /**
   * dmax is the largest distance a movable point travels from `current` to
   * `updated`, 0 when none moves.
   */
  ghost predicate LargestMove(current: seq<Point>, updated: seq<Point>, movable: seq<bool>, dist: Metric<Point>,
                              dmax: real)
    requires |current| == |updated| == |movable|
  {
    && dmax >= 0.0
    && (forall i :: 0 <= i < |movable| && movable[i] ==> dist(updated[i], current[i]) <= dmax)
    && (dmax == 0.0 || exists i :: 0 <= i < |movable| && movable[i] && dist(updated[i], current[i]) == dmax)
  }

  /**
   * What a pass that moved points measured on the UVs it read: it respaced
   * them, the largest movable displacement bounds every movable key's move
   * and is attained by one of them unless it is 0, and `cvWithin` says
   * whether the spacing variation is within epsCv.
   */
  ghost predicate Measured(out: PassOutcome, closed: bool, unwrap: bool, movable: seq<bool>, epsCv: real,
                           dist: Metric<Point>) {
    && out.Moved?
    && |out.current| == |movable| > 0 && |out.newUvs| == |movable|
    && Respaced(out.current, closed, unwrap, dist, out.evened, out.idxMap, out.spaced, out.newUvs)
    && LargestMove(out.current, out.newUvs, movable, dist, out.dmax)
    && (out.cvWithin <==> SpacingWithin(out.spaced, closed, epsCv, dist))
  }

  /**
   * The measuring half of a pass on the UVs it read: TooFew when there are
   * too few distinct points, otherwise the respaced points and their
   * measures.
   */
  method MeasurePass(pts: seq<Point>, closed: bool, unwrap: bool, movable: seq<bool>, epsCv: real,
                     dist: Metric<Point>) returns (out: PassOutcome)
    requires |movable| == |pts|
    ensures out.TooFew? <==> !EnoughPoints(pts, closed, unwrap, dist)
    ensures !out.TooFew? ==>
              && Measured(out, closed, unwrap, movable, epsCv, dist) && out.current == pts
              && (!unwrap ==> out.spaced[0] == pts[0])
              && (unwrap ==> Wrapped(out.spaced))
  {
    var ok, evened, idxMap, spaced, newUvs := Respace(pts, closed, unwrap, dist);
    if !ok {
      return TooFew;
    }
    var dmax := MaxDisplacement(pts, newUvs, movable, dist);
    var cvWithin := epsCv >= 0.0 && SpacingCvSquared(spaced, closed, dist) <= epsCv * epsCv;
    MeasuredOf(pts, closed, unwrap, movable, epsCv, dist, evened, idxMap, spaced, newUvs, dmax, cvWithin);
    out := Moved(pts, evened, idxMap, spaced, newUvs, dmax, cvWithin);
  }

  /** The outcome built from a respacing and its measures is Measured. */
  lemma MeasuredOf(pts: seq<Point>, closed: bool, unwrap: bool, movable: seq<bool>, epsCv: real, dist: Metric<Point>,
                   evened: seq<Point>, idxMap: seq<nat>, spaced: seq<Point>, newUvs: seq<Point>, dmax: real,
                   cvWithin: bool)
    requires |movable| == |pts| == |newUvs| > 0
    requires Respaced(pts, closed, unwrap, dist, evened, idxMap, spaced, newUvs)
    requires LargestMove(pts, newUvs, movable, dist, dmax)
    requires cvWithin <==> SpacingWithin(spaced, closed, epsCv, dist)
    ensures Measured(Moved(pts, evened, idxMap, spaced, newUvs, dmax, cvWithin), closed, unwrap, movable, epsCv, dist)
  {
  }

  /**
   * A pass that moved points, from the UVs uv0 to uv: it read the first UV
   * of every key, measured them, and wrote the new UVs as WriteBack does,
   * covering every recorded loop of every movable key and every loop welded
   * to a written one before the pass.
   */
  ghost predicate PassStep(uv0: seq<Point>, uv: seq<Point>, vertOf: seq<nat>, t: LoopTable, keys: seq<Key>,
                           closed: bool, unwrap: bool, movable: seq<bool>, weldTol: real, epsCv: real,
                           dist: Metric<Point>, out: PassOutcome, applied: set<Handle>, origin: Origin) {
    && |movable| == |keys|
    && TableInRange(t, |uv0|) && AllRecorded(t, keys)
    && Measured(out, closed, unwrap, movable, epsCv, dist)
    && out.current == FirstUvs(uv0, t, keys)
    && WriteLog(uv0, uv, vertOf, t, keys, movable, out.newUvs, weldTol, applied, origin)
    && Covered(t, keys, movable, applied, |keys|)
    && WeldClosed(uv0, vertOf, weldTol, applied)
  }

  /**
   * One pass of the iteration loop: respace the path's UVs, measure the
   * largest movable displacement and the spacing, and write the new UVs
   * back. A pass that cannot read the path or finds too few distinct points
   * writes nothing.
   */
  method EqualizePass(mesh: Mesh, t: LoopTable, keys: seq<Key>, closed: bool, unwrap: bool,
                      movable: seq<bool>, weldTol: real, epsCv: real, dist: Metric<Point>)
    returns (out: PassOutcome, applied: set<Handle>, ghost origin: Origin)
    requires mesh.Valid() && TableInRange(t, |mesh.uv|) && |movable| == |keys|
    modifies mesh
    ensures mesh.Valid()
    ensures out.Unreadable? <==> !AllRecorded(t, keys)
    ensures out.TooFew? <==>
              AllRecorded(t, keys) && !EnoughPoints(FirstUvs(old(mesh.uv), t, keys), closed, unwrap, dist)
    ensures !out.Moved? ==> mesh.uv == old(mesh.uv) && applied == {} && origin == map[]
    ensures out.Moved? ==>
              && PassStep(old(mesh.uv), mesh.uv, mesh.vertOf, t, keys, closed, unwrap, movable,
                          weldTol, epsCv, dist, out, applied, origin)
              && (!unwrap ==> out.spaced[0] == out.current[0])
              && (unwrap ==> Wrapped(out.spaced))
  {
    var read := ReadPoints(mesh, t, keys);
    if read.None? {
      return Unreadable, {}, map[];
    }
    out := MeasurePass(read.value, closed, unwrap, movable, epsCv, dist);
    if out.TooFew? {
      return TooFew, {}, map[];
    }
    applied, origin := WriteBack(mesh, t, keys, movable, out.newUvs, weldTol);
  }

  // ---------------------------------------------------------------------
  // The closed-loop index error

  /** Between non-negative reals, order and order of squares agree. */
  lemma SquareOrder(x: real, y: real)
    requires 0.0 <= x && 0.0 <= y
    ensures x <= y <==> x * x <= y * y
  {
    if x < y {
      PositiveProduct(y - x, y + x, y * y - x * x);
    } else if y < x {
      PositiveProduct(x - y, x + y, x * x - y * y);
    }
  }

  /** A Euclidean distance against eps: decided by the squared distance. */
  lemma EuclidVersusEps(dist: Metric<Point>, a: Point, b: Point, eps: real)
    requires eps > 0.0 && dist(a, b) * dist(a, b) == Dot(Sub(a, b), Sub(a, b))
    ensures dist(a, b) <= eps <==> Dot(Sub(a, b), Sub(a, b)) <= eps * eps
  {
    SquareOrder(dist(a, b), eps);
  }

  /**
   * Five UVs of a closed path at weld tolerance 1e-8 (graph cells 2.5e-9
   * wide): p3 and p4 sit within 1e-9 of p0 but in other cells, and p4 lies
   * more than 1e-9 from p3.
   */
  function ShrinkingLoop(): (pts: seq<Point>)
    ensures |pts| == 5
  {
    [Point(0.0000000015, 0.0000000015), Point(0.25, 0.0), Point(0.5, 0.0),
     Point(0.000000001, 0.0000000015), Point(0.0000000021, 0.0000000009)]
  }

  /** The five points have five different graph keys at weld tolerance 1e-8, and no seam step. */
  lemma ShrinkingLoopIsAPath()
    ensures var pts := ShrinkingLoop();
            var tol := GraphTolerance(0.00000001);
            && (forall i, j :: 0 <= i < j < 5 ==> QuantizeKey(pts[i], tol) != QuantizeKey(pts[j], tol))
            && (forall i :: 0 <= i < 5 ==> !SeamStepAt(pts, i))
  {
    var pts := ShrinkingLoop();
    var tol := GraphTolerance(0.00000001);
    assert tol == 0.0000000025;
    assert 1.0 / Max(tol, 1e-12) == 400000000.0;
    assert KeyScale(tol) == 400000000;
    assert QuantizeKey(pts[0], tol) == Key(1, 1);
    assert QuantizeKey(pts[1], tol) == Key(100000000, 0);
    assert QuantizeKey(pts[2], tol) == Key(200000000, 0);
    assert QuantizeKey(pts[3], tol) == Key(0, 1);
    assert QuantizeKey(pts[4], tol) == Key(1, 0);
  }

  /**
   * On a closed path, redistribute_evenly deduplicates the already
   * deduplicated points once more: here dedup_with_map keeps four points
   * (p4 closes on p0) and its index map refers to index 3, but the second
   * deduplication drops p3 as well (it too closes on p0), so the new points
   * number three and `new_pts[idx_map[i]]` is past the end.
   */
  lemma ClosedRededupIndexError(dist: Metric<Point>)
    requires Euclidean(dist)
    ensures var d := DedupPoints(ShrinkingLoop(), true, DedupEps, dist);
            && |d| == 4
            && !RedistributeCopies(d, true, DedupEps, dist)
            && |DedupPoints(d, true, DedupEps, dist)| == 3
            && forall newPts, idxMap :: |newPts| == 3 && Covers(idxMap, 3) ==> ByKeyAsWritten(newPts, idxMap).None?
  {
    var p := ShrinkingLoop();
    ShrinkingLoopDistances(dist, p);
    ShrinkingLoopRededup(dist);
    forall newPts: seq<Point>, idxMap: seq<nat> | |newPts| == 3 && Covers(idxMap, 3)
      ensures ByKeyAsWritten(newPts, idxMap).None?
    {
      var i :| 0 <= i < |idxMap| && idxMap[i] == 3;
    }
  }

  /** The two deduplications of the example, from its distances. */
  lemma ShrinkingLoopRededup(dist: Metric<Point>)
    requires var p := ShrinkingLoop();
             && dist(p[1], p[0]) > DedupEps && dist(p[2], p[1]) > DedupEps
             && dist(p[3], p[2]) > DedupEps && dist(p[4], p[3]) > DedupEps
             && dist(p[0], p[4]) <= DedupEps && dist(p[0], p[3]) <= DedupEps
    ensures var d := DedupPoints(ShrinkingLoop(), true, DedupEps, dist);
            && |d| == 4
            && !RedistributeCopies(d, true, DedupEps, dist)
            && |DedupPoints(d, true, DedupEps, dist)| == 3
  {
    var pts := ShrinkingLoop();
    ShrinkingLoopCollapse(dist);
    var d := DedupPoints(pts, true, DedupEps, dist);
    assert d == pts[..4];
    RededupDropsAtMostOne(pts, true, DedupEps, dist);
    var d2 := DedupPoints(d, true, DedupEps, dist);
    assert d2 == pts[..3];
    var segs := SegmentLengths(d2, true, dist);
    assert |segs| == 3 && segs[0] == dist(pts[1], pts[0]) && segs[1] >= 0.0 && segs[2] >= 0.0;
    assert Sum(segs) == Sum(segs[..2]) + segs[2];
    assert segs[..2][..1] == [segs[0]] && [segs[0]][..0] == [];
    assert Sum(segs[..2]) == Sum([segs[0]]) + segs[1];
  }

  /** At a and b, the distance is the Euclidean one: its square is the squared length of the difference. */
  ghost predicate EuclideanAt(dist: Metric<Point>, a: Point, b: Point) {
    dist(a, b) * dist(a, b) == Dot(Sub(a, b), Sub(a, b))
  }

  /** The distance is the Euclidean one. */
  ghost predicate Euclidean(dist: Metric<Point>) {
    forall a, b :: EuclideanAt(dist, a, b)
  }

  /** Two points further apart than 1e-9 in squared Euclidean distance. */
  lemma FarApart(dist: Metric<Point>, a: Point, b: Point)
    requires Euclidean(dist)
    requires Dot(Sub(a, b), Sub(a, b)) > DedupEps * DedupEps
    ensures dist(a, b) > DedupEps
  {
    assert EuclideanAt(dist, a, b);
    EuclidVersusEps(dist, a, b, DedupEps);
  }

  /** Two points within 1e-9 in squared Euclidean distance. */
  lemma CloseTogether(dist: Metric<Point>, a: Point, b: Point)
    requires Euclidean(dist)
    requires Dot(Sub(a, b), Sub(a, b)) <= DedupEps * DedupEps
    ensures dist(a, b) <= DedupEps
  {
    assert EuclideanAt(dist, a, b);
    EuclidVersusEps(dist, a, b, DedupEps);
  }

  /** The squared distance of two points of the example whose difference is (dx, dy), against 1e-18. */
  lemma SquareVersusEps(a: Point, b: Point, dx: real, dy: real)
    requires a.x - b.x == dx && a.y - b.y == dy
    ensures Dot(Sub(a, b), Sub(a, b)) == dx * dx + dy * dy
    ensures DedupEps * DedupEps == 0.000000000000000001
  {
  }

  /** The squared distances of the example against 1e-18. */
  lemma ShrinkingLoopSquares(p: seq<Point>)
    requires p == ShrinkingLoop()
    ensures && Dot(Sub(p[1], p[0]), Sub(p[1], p[0])) > DedupEps * DedupEps && Dot(Sub(p[2], p[1]), Sub(p[2], p[1])) > DedupEps * DedupEps
            && Dot(Sub(p[3], p[2]), Sub(p[3], p[2])) > DedupEps * DedupEps && Dot(Sub(p[4], p[3]), Sub(p[4], p[3])) > DedupEps * DedupEps
            && Dot(Sub(p[0], p[4]), Sub(p[0], p[4])) <= DedupEps * DedupEps && Dot(Sub(p[0], p[3]), Sub(p[0], p[3])) <= DedupEps * DedupEps
  {
    SquareVersusEps(p[1], p[0], 0.2499999985, -0.0000000015);
    SquareVersusEps(p[2], p[1], 0.25, 0.0);
    SquareVersusEps(p[3], p[2], -0.499999999, 0.0000000015);
    SquareVersusEps(p[4], p[3], 0.0000000011, -0.0000000006);
    SquareVersusEps(p[0], p[4], -0.0000000006, 0.0000000006);
    SquareVersusEps(p[0], p[3], 0.0000000005, 0.0);
  }

  /** The distances of the example, under the Euclidean distance, against 1e-9. */
  lemma ShrinkingLoopDistances(dist: Metric<Point>, p: seq<Point>)
    requires Euclidean(dist) && p == ShrinkingLoop()
    ensures && dist(p[1], p[0]) > DedupEps && dist(p[2], p[1]) > DedupEps
            && dist(p[3], p[2]) > DedupEps && dist(p[4], p[3]) > DedupEps
            && dist(p[0], p[4]) <= DedupEps && dist(p[0], p[3]) <= DedupEps
  {
    ShrinkingLoopSquares(p);
    FarApart(dist, p[1], p[0]);
    FarApart(dist, p[2], p[1]);
    FarApart(dist, p[3], p[2]);
    FarApart(dist, p[4], p[3]);
    CloseTogether(dist, p[0], p[4]);
    CloseTogether(dist, p[0], p[3]);
  }

  /** No point of the example lies within 1e-9 of its predecessor: the collapse keeps all five. */
  lemma ShrinkingLoopCollapse(dist: Metric<Point>)
    requires var p := ShrinkingLoop();
             && dist(p[1], p[0]) > DedupEps && dist(p[2], p[1]) > DedupEps
             && dist(p[3], p[2]) > DedupEps && dist(p[4], p[3]) > DedupEps
    ensures Collapse(ShrinkingLoop(), DedupEps, dist) == ShrinkingLoop()
  {
    var p := ShrinkingLoop();
    forall j | 0 < j < |p|
      ensures ApartAt(p, j, DedupEps, dist)
    {
    }
    SeparatedIsFixed(p, DedupEps, dist);
  }

  // ---------------------------------------------------------------------
  // The path body

  /**
   * Every loop outside `written` keeps its UV, and every loop in it shares
   * a vertex with a recorded loop of a movable key.
   */
  ghost predicate MovableWrites(uv0: seq<Point>, uv: seq<Point>, vertOf: seq<nat>, t: LoopTable,
                                keys: seq<Key>, movable: seq<bool>, written: set<Handle>) {
    && |uv| == |uv0|
    && (forall h :: 0 <= h < |uv| && h !in written ==> uv[h] == uv0[h])
    && (forall h :: h in written ==> exists i, l :: FromMovable(vertOf, t, keys, movable, h, i, l))
  }

  /** A pass appends its applied loops to what earlier passes wrote. */
  lemma ComposeWrites(uv0: seq<Point>, uv1: seq<Point>, uv2: seq<Point>, vertOf: seq<nat>, t: LoopTable,
                      keys: seq<Key>, movable: seq<bool>, newUvs: seq<Point>, weldTol: real, written: set<Handle>,
                      applied: set<Handle>, origin: Origin)
    requires MovableWrites(uv0, uv1, vertOf, t, keys, movable, written)
    requires WriteLog(uv1, uv2, vertOf, t, keys, movable, newUvs, weldTol, applied, origin)
    ensures MovableWrites(uv0, uv2, vertOf, t, keys, movable, written + applied)
  {
    forall h | h in written + applied
      ensures exists i, l :: FromMovable(vertOf, t, keys, movable, h, i, l)
    {
      if h in applied {
        assert Logged(uv1, uv2, vertOf, t, keys, movable, newUvs, weldTol, applied, h, origin[h]);
        assert FromMovable(vertOf, t, keys, movable, h, origin[h].0, origin[h].1);
      }
    }
  }

  /** The counters of a path that went through the iteration loop. */
  ghost predicate CountedPath(stats: Stats, stats': Stats, closed: bool, itersUsed: nat, moved: set<Key>, short: bool) {
    && stats'.totalPaths == stats.totalPaths + 1
    && stats'.processed == stats.processed + 1
    && stats'.totalIters == stats.totalIters + itersUsed
    && stats'.movedVis == stats.movedVis + |moved|
    && stats'.countClosed == stats.countClosed + (if closed then 1 else 0)
    && stats'.countOpen == stats.countOpen + (if closed then 0 else 1)
    && stats'.skipped == stats.skipped + (if short then 1 else 0)
  }

  /** The weld keys the passes moved, pass after pass. */
  ghost function MovedByPasses(passes: seq<PassOutcome>, movable: seq<bool>, weldTol: real): set<Key> {
    if passes == [] then {}
    else
      var p := passes[|passes| - 1];
      MovedByPasses(passes[..|passes| - 1], movable, weldTol) +
        if p.Moved? && |p.current| == |p.newUvs| == |movable| then MovedKeys(p.current, p.newUvs, movable, weldTol) else {}
  }

  /**
   * The passes of one path, in order: pass k takes the UVs from uvs[k] to
   * uvs[k + 1], writing the loops of applieds[k] for the reasons in
   * origins[k], so every loop ends with the UV of the last pass that wrote
   * it.
   */
  ghost predicate PassChain(uvs: seq<seq<Point>>, passes: seq<PassOutcome>, applieds: seq<set<Handle>>,
                            origins: seq<Origin>, vertOf: seq<nat>, t: LoopTable, keys: seq<Key>, closed: bool,
                            unwrap: bool, movable: seq<bool>, s: Settings, dist: Metric<Point>) {
    && |uvs| == |passes| + 1 && |applieds| == |origins| == |passes|
    && forall k {:trigger origins[k]} :: 0 <= k < |passes| ==>
         PassStep(uvs[k], uvs[k + 1], vertOf, t, keys, closed, unwrap, movable,
                  s.weldTolerance, s.spacingCvTol, dist, passes[k], applieds[k], origins[k])
  }

  /** A pass step carries over to equal UVs, outcome, written loops and reasons. */
  lemma PassStepEqual(uv0: seq<Point>, uv: seq<Point>, out: PassOutcome, applied: set<Handle>, origin: Origin,
                      uv0': seq<Point>, uv': seq<Point>, out': PassOutcome, applied': set<Handle>, origin': Origin,
                      vertOf: seq<nat>, t: LoopTable, keys: seq<Key>, closed: bool, unwrap: bool,
                      movable: seq<bool>, s: Settings, dist: Metric<Point>)
    requires PassStep(uv0, uv, vertOf, t, keys, closed, unwrap, movable, s.weldTolerance, s.spacingCvTol, dist,
                      out, applied, origin)
    requires uv0' == uv0 && uv' == uv && out' == out && applied' == applied && origin' == origin
    ensures PassStep(uv0', uv', vertOf, t, keys, closed, unwrap, movable, s.weldTolerance, s.spacingCvTol, dist,
                     out', applied', origin')
  {
  }

  /** Pass k of a chain extended by one more pass is the chain's pass k, or the new one. */
  lemma ExtendedStepAt(uvs: seq<seq<Point>>, passes: seq<PassOutcome>, applieds: seq<set<Handle>>,
                       origins: seq<Origin>, vertOf: seq<nat>, t: LoopTable, keys: seq<Key>, closed: bool,
                       unwrap: bool, movable: seq<bool>, s: Settings, dist: Metric<Point>,
                       uv: seq<Point>, out: PassOutcome, applied: set<Handle>, origin: Origin, k: nat)
    requires PassChain(uvs, passes, applieds, origins, vertOf, t, keys, closed, unwrap, movable, s, dist)
    requires PassStep(uvs[|passes|], uv, vertOf, t, keys, closed, unwrap, movable,
                      s.weldTolerance, s.spacingCvTol, dist, out, applied, origin)
    requires k <= |passes|
    ensures var uvs', passes', applieds', origins' := uvs + [uv], passes + [out], applieds + [applied], origins + [origin];
            PassStep(uvs'[k], uvs'[k + 1], vertOf, t, keys, closed, unwrap, movable,
                     s.weldTolerance, s.spacingCvTol, dist, passes'[k], applieds'[k], origins'[k])
  {
    var uvs', passes', applieds', origins' := uvs + [uv], passes + [out], applieds + [applied], origins + [origin];
    if k < |passes| {
      PassStepEqual(uvs[k], uvs[k + 1], passes[k], applieds[k], origins[k],
                    uvs'[k], uvs'[k + 1], passes'[k], applieds'[k], origins'[k],
                    vertOf, t, keys, closed, unwrap, movable, s, dist);
    } else {
      PassStepEqual(uvs[|passes|], uv, out, applied, origin,
                    uvs'[k], uvs'[k + 1], passes'[k], applieds'[k], origins'[k],
                    vertOf, t, keys, closed, unwrap, movable, s, dist);
    }
  }

  /** One more pass extends the chain. */
  lemma PassChainStep(uvs: seq<seq<Point>>, passes: seq<PassOutcome>, applieds: seq<set<Handle>>,
                      origins: seq<Origin>, vertOf: seq<nat>, t: LoopTable, keys: seq<Key>, closed: bool,
                      unwrap: bool, movable: seq<bool>, s: Settings, dist: Metric<Point>,
                      uv: seq<Point>, out: PassOutcome, applied: set<Handle>, origin: Origin)
    requires PassChain(uvs, passes, applieds, origins, vertOf, t, keys, closed, unwrap, movable, s, dist)
    requires PassStep(uvs[|passes|], uv, vertOf, t, keys, closed, unwrap, movable,
                      s.weldTolerance, s.spacingCvTol, dist, out, applied, origin)
    ensures PassChain(uvs + [uv], passes + [out], applieds + [applied], origins + [origin],
                      vertOf, t, keys, closed, unwrap, movable, s, dist)
  {
    forall k | 0 <= k < |passes| + 1
      ensures var uvs', passes', applieds', origins' := uvs + [uv], passes + [out], applieds + [applied], origins + [origin];
              PassStep(uvs'[k], uvs'[k + 1], vertOf, t, keys, closed, unwrap, movable,
                       s.weldTolerance, s.spacingCvTol, dist, passes'[k], applieds'[k], origins'[k])
    {
      ExtendedStepAt(uvs, passes, applieds, origins, vertOf, t, keys, closed, unwrap, movable, s, dist,
                     uv, out, applied, origin, k);
    }
  }

  /** One more pass that moved points adds the weld keys it moved. */
  lemma MovedByPassesStep(passes: seq<PassOutcome>, out: PassOutcome, movable: seq<bool>, weldTol: real)
    requires out.Moved? && |out.current| == |out.newUvs| == |movable|
    ensures MovedByPasses(passes + [out], movable, weldTol) ==
              MovedByPasses(passes, movable, weldTol) + MovedKeys(out.current, out.newUvs, movable, weldTol)
  {
    assert (passes + [out])[..|passes|] == passes;
  }

  /**
   * The iteration loop ended before `max_iter` passes without a converged
   * pass: `iters_used` fell back to `max_iter` after a pass that could not
   * read the path or found too few points.
   */
  ghost predicate StoppedShort(passes: seq<PassOutcome>, itersUsed: nat, budget: Budget) {
    |passes| < budget.maxIter && itersUsed == budget.maxIter
  }

  /** A pass on the UVs uv cannot respace the path: a key has no loop, or too few distinct points survive dedup. */
  ghost predicate CannotRespace(t: LoopTable, keys: seq<Key>, uv: seq<Point>, closed: bool, unwrap: bool,
                                dist: Metric<Point>) {
    TableInRange(t, |uv|) && (!AllRecorded(t, keys) || !EnoughPoints(FirstUvs(uv, t, keys), closed, unwrap, dist))
  }

  /**
   * How the iteration loop of a path stopped: after between 1 and
   * `max_iter` passes, fewer only when the budget allows an early stop and
   * the last pass converged; no earlier pass converged where an early stop
   * was allowed.
   */
  ghost predicate StoppedAsAllowed(passes: seq<PassOutcome>, itersUsed: nat, budget: Budget, epsPos: real) {
    && 1 <= itersUsed <= budget.maxIter
    && |passes| <= budget.maxIter
    && (itersUsed < budget.maxIter ==>
          budget.stopOnConverge && |passes| == itersUsed && Converged(passes[|passes| - 1], epsPos))
    && (forall k :: 0 <= k < |passes| - 1 ==> !(budget.stopOnConverge && Converged(passes[k], epsPos)))
  }

  /**
   * One turn of the iteration loop: a pass, and when it moved points the
   * chain, the written loops and the moved weld keys extended by it.
   */
  method ChainPass(mesh: Mesh, t: LoopTable, keys: seq<Key>, closed: bool, unwrap: bool, movable: seq<bool>,
                   s: Settings, dist: Metric<Point>, ghost uv0: seq<Point>, moved: set<Key>,
                   ghost written: set<Handle>, ghost passes: seq<PassOutcome>, ghost uvs: seq<seq<Point>>,
                   ghost applieds: seq<set<Handle>>, ghost origins: seq<Origin>)
    returns (out: PassOutcome, moved': set<Key>, ghost written': set<Handle>, ghost passes': seq<PassOutcome>,
             ghost uvs': seq<seq<Point>>, ghost applieds': seq<set<Handle>>, ghost origins': seq<Origin>)
    requires mesh.Valid() && TableInRange(t, |mesh.uv|) && |movable| == |keys|
    requires MovableWrites(uv0, mesh.uv, mesh.vertOf, t, keys, movable, written)
    requires |uvs| == |passes| + 1 && uvs[|passes|] == mesh.uv
    requires PassChain(uvs, passes, applieds, origins, mesh.vertOf, t, keys, closed, unwrap, movable, s, dist)
    requires moved == MovedByPasses(passes, movable, s.weldTolerance)
    modifies mesh
    ensures mesh.Valid() && TableInRange(t, |mesh.uv|)
    ensures !out.Moved? ==>
              mesh.uv == old(mesh.uv) && moved' == moved && written' == written && passes' == passes && uvs' == uvs
    ensures out.Moved? ==> passes' == passes + [out] && uvs' == uvs + [mesh.uv]
    ensures !out.Moved? ==> (out.TooFew? <==> AllRecorded(t, keys)) && CannotRespace(t, keys, mesh.uv, closed, unwrap, dist)
    ensures MovableWrites(uv0, mesh.uv, mesh.vertOf, t, keys, movable, written')
    ensures PassChain(uvs', passes', applieds', origins', mesh.vertOf, t, keys, closed, unwrap, movable, s, dist)
    ensures moved' == MovedByPasses(passes', movable, s.weldTolerance)
  {
    ghost var uvPrev := mesh.uv;
    var applied;
    ghost var origin;
    out, applied, origin := EqualizePass(mesh, t, keys, closed, unwrap, movable, s.weldTolerance, s.spacingCvTol, dist);
    if !out.Moved? {
      return out, moved, written, passes, uvs, applieds, origins;
    }
    ComposeWrites(uv0, uvPrev, mesh.uv, mesh.vertOf, t, keys, movable, out.newUvs, s.weldTolerance, written, applied, origin);
    PassChainStep(uvs, passes, applieds, origins, mesh.vertOf, t, keys, closed, unwrap, movable, s, dist,
                  mesh.uv, out, applied, origin);
    MovedByPassesStep(passes, out, movable, s.weldTolerance);
    written' := written + applied;
    moved' := CollectMoved(out.current, out.newUvs, movable, s.weldTolerance, moved);
    uvs', passes', applieds', origins' := uvs + [mesh.uv], passes + [out], applieds + [applied], origins + [origin];
  }

  /**
   * The iteration loop of one path: passes until `max_iter` or, when the
   * budget allows, until a pass converges; a pass that moves nothing ends
   * the loop, `tooFew` telling whether it found too few points. `passes`
   * are the passes that moved points, each from the UVs the previous one
   * left (`uvs`), and `moved` is the union of the weld keys each of them
   * moved.
   */
  method IteratePasses(mesh: Mesh, t: LoopTable, keys: seq<Key>, closed: bool, unwrap: bool, movable: seq<bool>,
                       s: Settings, dist: Metric<Point>, budget: Budget)
    returns (itersUsed: nat, tooFew: bool, moved: set<Key>, ghost written: set<Handle>,
             ghost passes: seq<PassOutcome>, ghost uvs: seq<seq<Point>>,
             ghost applieds: seq<set<Handle>>, ghost origins: seq<Origin>)
    requires mesh.Valid() && TableInRange(t, |mesh.uv|) && |movable| == |keys| && budget.maxIter >= 1
    modifies mesh
    ensures mesh.Valid()
    ensures MovableWrites(old(mesh.uv), mesh.uv, mesh.vertOf, t, keys, movable, written)
    ensures |uvs| == |passes| + 1 && uvs[0] == old(mesh.uv) && uvs[|passes|] == mesh.uv
    ensures PassChain(uvs, passes, applieds, origins, mesh.vertOf, t, keys, closed, unwrap, movable, s, dist)
    ensures moved == MovedByPasses(passes, movable, s.weldTolerance)
    ensures StoppedAsAllowed(passes, itersUsed, budget, EpsPos(s))
    ensures StoppedShort(passes, itersUsed, budget) ==> CannotRespace(t, keys, mesh.uv, closed, unwrap, dist)
    ensures tooFew <==> StoppedShort(passes, itersUsed, budget) && AllRecorded(t, keys)
  {
    var epsPos := EpsPos(s);
    ghost var uv0 := mesh.uv;
    written, itersUsed, moved, tooFew := {}, 0, {}, false;
    passes, uvs, applieds, origins := [], [mesh.uv], [], [];
    // `stop` stands for the two `break`s of the loop: a pass that moved
    // nothing, and a converged pass when the budget allows an early stop.
    var it, stop := 0, false;
    while it < budget.maxIter && !stop
      invariant 0 <= it <= budget.maxIter
      invariant mesh.Valid() && TableInRange(t, |mesh.uv|)
      invariant MovableWrites(uv0, mesh.uv, mesh.vertOf, t, keys, movable, written)
      invariant |passes| == it && |uvs| == it + 1 && uvs[0] == uv0 && uvs[it] == mesh.uv
      invariant PassChain(uvs, passes, applieds, origins, mesh.vertOf, t, keys, closed, unwrap, movable, s, dist)
      invariant moved == MovedByPasses(passes, movable, s.weldTolerance)
      invariant itersUsed == 0 || (stop && itersUsed == it > 0 && budget.stopOnConverge && Converged(passes[it - 1], epsPos))
      invariant forall k :: 0 <= k < |passes| - 1 ==> !(budget.stopOnConverge && Converged(passes[k], epsPos))
      invariant itersUsed == 0 && |passes| > 0 ==> !(budget.stopOnConverge && Converged(passes[|passes| - 1], epsPos))
      invariant !stop || itersUsed != 0 ==> !tooFew
      invariant stop && itersUsed == 0 ==>
                  it < budget.maxIter && CannotRespace(t, keys, mesh.uv, closed, unwrap, dist) &&
                  (tooFew <==> AllRecorded(t, keys))
      decreases budget.maxIter - it, if stop then 0 else 1
    {
      var out;
      out, moved, written, passes, uvs, applieds, origins :=
        ChainPass(mesh, t, keys, closed, unwrap, movable, s, dist, uv0, moved, written, passes, uvs, applieds, origins);
      if !out.Moved? {
        tooFew, stop := out.TooFew?, true;
      } else {
        it := it + 1;
        if budget.stopOnConverge && (out.dmax <= epsPos || out.cvWithin) {
          itersUsed, stop := it, true;
        }
      }
    }
    if itersUsed == 0 {
      itersUsed := budget.maxIter;
    }
  }

  /**
   * The per-path body of UV_OT_loop_equalize.execute. A path with at most
   * two distinct keys is skipped and counted. A path whose UVs cannot be
   * read counts only towards `total_paths`. Any other path goes through the
   * iteration loop, unwrapped across the seam when closed and crossing it,
   * and is counted as processed, as open or closed, with the passes used
   * and the weld keys moved. Only loops sharing a vertex and a weld key
   * with a recorded loop of a movable key are written.
   */
  method EqualizePath(mesh: Mesh, sub: Graph, keys: seq<Key>, t: LoopTable, s: Settings,
                      dist: Metric<Point>, stats: Stats)
    returns (stats': Stats, itersUsed: nat, moved: set<Key>, ghost written: set<Handle>,
             ghost passes: seq<PassOutcome>, ghost uvs: seq<seq<Point>>,
             ghost applieds: seq<set<Handle>>, ghost origins: seq<Origin>)
    requires mesh.Valid() && TableInRange(t, |mesh.uv|)
    modifies mesh
    ensures mesh.Valid()
    ensures var closed := ResolveClosed(s.closedLoop, sub, keys);
            MovableWrites(old(mesh.uv), mesh.uv, mesh.vertOf, t, keys, MovableMask(sub, keys, closed), written)
    ensures |uvs| == |passes| + 1 && uvs[0] == old(mesh.uv) && uvs[|passes|] == mesh.uv
    ensures |DistinctKeys(keys)| <= 2 ==>
              stats' == stats.(skipped := stats.skipped + 1) && written == {} && itersUsed == 0 && passes == [] && moved == {}
    ensures |DistinctKeys(keys)| > 2 && !AllRecorded(t, keys) ==>
              stats' == stats.(totalPaths := stats.totalPaths + 1) && written == {} && itersUsed == 0 && passes == [] && moved == {}
    ensures |DistinctKeys(keys)| > 2 && AllRecorded(t, keys) ==>
              var closed := ResolveClosed(s.closedLoop, sub, keys);
              var movable := MovableMask(sub, keys, closed);
              var unwrap := CrossesSeam(FirstUvs(old(mesh.uv), t, keys), closed);
              && CountedPath(stats, stats', closed, itersUsed, moved, StoppedShort(passes, itersUsed, IterationBudget(s, closed)))
              && (StoppedShort(passes, itersUsed, IterationBudget(s, closed)) ==>
                    !EnoughPoints(FirstUvs(mesh.uv, t, keys), closed, unwrap, dist))
              && PassChain(uvs, passes, applieds, origins, mesh.vertOf, t, keys, closed, unwrap, movable, s, dist)
              && moved == MovedByPasses(passes, movable, s.weldTolerance)
              && StoppedAsAllowed(passes, itersUsed, IterationBudget(s, closed), EpsPos(s))
  {
    var closed := ResolveClosed(s.closedLoop, sub, keys);
    var movable := MovableMask(sub, keys, closed);
    written, itersUsed, moved := {}, 0, {};
    passes, uvs, applieds, origins := [], [mesh.uv], [], [];
    if |DistinctKeys(keys)| <= 2 {
      return stats.(skipped := stats.skipped + 1), 0, {}, {}, [], [mesh.uv], [], [];
    }
    stats' := stats.(totalPaths := stats.totalPaths + 1);
    var first := ReadPoints(mesh, t, keys);
    if first.None? {
      return stats', 0, {}, {}, [], [mesh.uv], [], [];
    }
    var needUnwrap := NeedUnwrap(first.value, closed);
    var unwrap := closed && needUnwrap;
    var budget := IterationBudget(s, closed);
    var tooFew;
    itersUsed, tooFew, moved, written, passes, uvs, applieds, origins :=
      IteratePasses(mesh, t, keys, closed, unwrap, movable, s, dist, budget);
    stats' := stats'.(skipped := stats'.skipped + (if tooFew then 1 else 0),
                      totalIters := stats'.totalIters + itersUsed,
                      countClosed := stats'.countClosed + (if closed then 1 else 0),
                      countOpen := stats'.countOpen + (if closed then 0 else 1),
                      movedVis := stats'.movedVis + |moved|,
                      processed := stats'.processed + 1);
  }

  // ---------------------------------------------------------------------
  // Straighten open loops

  /**
   * The new points of an open path of n >= 2 distinct points: unchanged for
   * two points, otherwise n points at equal steps on the chord between the
   * first and the last.
   */
  function StraightPoints(dedup: seq<Point>): (r: seq<Point>)
    requires |dedup| >= 2
    ensures |r| == |dedup| && r[0] == dedup[0] && r[|r| - 1] == dedup[|dedup| - 1]
  {
    var n := |dedup|;
    if n <= 2 then dedup else ChordPoints(dedup[0], dedup[n - 1], EvenFractions(n))
  }

  /** Consecutive straightened points differ by the same vector: the chord over n - 1. */
  lemma StraightPointsEven(dedup: seq<Point>, i: nat)
    requires |dedup| >= 2 && i + 1 < |dedup|
    ensures var r := StraightPoints(dedup);
            Sub(r[i + 1], r[i]) == Scale(Sub(dedup[|dedup| - 1], dedup[0]), 1.0 / ((|dedup| - 1) as real))
  {
    var n := |dedup|;
    if n > 2 {
      EvenChordSteps(dedup[0], dedup[n - 1], n, i);
    } else {
      assert i == 0;
      var d := Sub(dedup[1], dedup[0]);
      assert Scale(d, 1.0 / ((n - 1) as real)) == Scale(d, 1.0);
    }
  }

  /** The write half of StraightenPath: the weld keys it changes, and WriteBack of the straightened points. */
  method WriteStraightened(mesh: Mesh, t: LoopTable, keys: seq<Key>, movable: seq<bool>, pts: seq<Point>,
                           newUvs: seq<Point>, weldTol: real)
    returns (moved: set<Key>, ghost written: set<Handle>, ghost origin: Origin)
    requires mesh.Valid() && TableInRange(t, |mesh.uv|)
    requires |keys| == |movable| == |newUvs| == |pts|
    modifies mesh
    ensures mesh.Valid()
    ensures moved == MovedKeys(pts, newUvs, movable, weldTol)
    ensures MovableWrites(old(mesh.uv), mesh.uv, mesh.vertOf, t, keys, movable, written)
    ensures WriteLog(old(mesh.uv), mesh.uv, mesh.vertOf, t, keys, movable, newUvs, weldTol, written, origin)
    ensures Covered(t, keys, movable, written, |keys|)
    ensures WeldClosed(old(mesh.uv), mesh.vertOf, weldTol, written)
  {
    moved := CollectMoved(pts, newUvs, movable, weldTol, {});
    written, origin := WriteBack(mesh, t, keys, movable, newUvs, weldTol);
    ComposeWrites(old(mesh.uv), old(mesh.uv), mesh.uv, mesh.vertOf, t, keys, movable, newUvs, weldTol, {}, written, origin);
  }

  /**
   * The per-path body of UV_OT_loop_equalize_straight_open.execute. A path
   * with at most two distinct keys is skipped; a path closed by the degree
   * rule is counted as closed and skipped, untouched; a path whose UVs
   * cannot be read is passed over without counting. Otherwise the read
   * points are deduplicated as an open polyline: fewer than two distinct
   * points is a skip, else every movable key gets the straightened point
   * of its dedup index (`idxMap`), written as WriteBack does, and `moved`
   * holds the weld keys that this changes.
   */
  method StraightenPath(mesh: Mesh, sub: Graph, keys: seq<Key>, t: LoopTable, weldTol: real,
                        dist: Metric<Point>, stats: Stats)
    returns (stats': Stats, moved: set<Key>, ghost written: set<Handle>, ghost idxMap: seq<nat>, ghost origin: Origin)
    requires mesh.Valid() && TableInRange(t, |mesh.uv|)
    modifies mesh
    ensures mesh.Valid()
    ensures MovableWrites(old(mesh.uv), mesh.uv, mesh.vertOf, t, keys, MovableMask(sub, keys, false), written)
    ensures |DistinctKeys(keys)| <= 2 ==> stats' == stats.(skipped := stats.skipped + 1) && written == {} && moved == {}
    ensures |DistinctKeys(keys)| > 2 && ClosedBy(AllDegreeTwo, sub, keys) ==>
              stats' == stats.(countClosed := stats.countClosed + 1, skipped := stats.skipped + 1) && written == {} && moved == {}
    ensures |DistinctKeys(keys)| > 2 && !ClosedBy(AllDegreeTwo, sub, keys) && !AllRecorded(t, keys) ==>
              stats' == stats && written == {} && moved == {}
    ensures |DistinctKeys(keys)| > 2 && !ClosedBy(AllDegreeTwo, sub, keys) && AllRecorded(t, keys) ==>
              var pts := FirstUvs(old(mesh.uv), t, keys);
              var dedup := DedupPoints(pts, false, DedupEps, dist);
              var movable := MovableMask(sub, keys, false);
              && (|dedup| < 2 ==> stats' == stats.(skipped := stats.skipped + 1) && written == {} && moved == {})
              && (|dedup| >= 2 ==>
                    && stats' == stats.(processed := stats.processed + 1, countOpen := stats.countOpen + 1,
                                        movedVis := stats.movedVis + |moved|)
                    && DedupIndex(pts, false, DedupEps, dist, idxMap)
                    && var newUvs := ByKey(StraightPoints(dedup), idxMap);
                       && moved == MovedKeys(pts, newUvs, movable, weldTol)
                       && WriteLog(old(mesh.uv), mesh.uv, mesh.vertOf, t, keys, movable, newUvs, weldTol, written, origin)
                       && Covered(t, keys, movable, written, |keys|)
                       && WeldClosed(old(mesh.uv), mesh.vertOf, weldTol, written))
  {
    var movable := MovableMask(sub, keys, false);
    stats', moved, written, idxMap, origin := stats, {}, {}, [], map[];
    if |DistinctKeys(keys)| <= 2 {
      return stats.(skipped := stats.skipped + 1), {}, {}, [], map[];
    }
    if ClosedBy(AllDegreeTwo, sub, keys) {
      return stats.(countClosed := stats.countClosed + 1, skipped := stats.skipped + 1), {}, {}, [], map[];
    }
    var read := ReadPoints(mesh, t, keys);
    if read.None? {
      return;
    }
    var pts := read.value;
    var dedup, im, raw := DedupWithMap(pts, false, DedupEps, dist);
    idxMap := im;
    assert DedupIndex(pts, false, DedupEps, dist, idxMap);
    if |dedup| < 2 {
      return stats.(skipped := stats.skipped + 1), {}, {}, idxMap, map[];
    }
    var spaced := StraightPoints(dedup);
    assert ByKeyAsWritten(spaced, im).Some?;
    var newUvs := ByKey(spaced, im);
    moved, written, origin := WriteStraightened(mesh, t, keys, movable, pts, newUvs, weldTol);
    stats' := stats.(processed := stats.processed + 1, countOpen := stats.countOpen + 1,
                     movedVis := stats.movedVis + |moved|);
  }

  // ---------------------------------------------------------------------
  // One object

  /** Which of the two operators runs, with its settings. */
  datatype Operator = Spacing(s: Settings) | StraightenOpen(weldTolerance: real)

  function WeldTolerance(op: Operator): real {
    match op
    case Spacing(s) => s.weldTolerance
    case StraightenOpen(w) => w
  }

  /** Loop h shares its vertex with a corner of a selected UV edge. */
  ghost predicate NearSelection(vertOf: seq<nat>, corners: seq<Handle>, h: Handle) {
    h < |vertOf| && exists j :: 0 <= j < |corners| && corners[j] < |vertOf| && vertOf[corners[j]] == vertOf[h]
  }

  /** Every loop whose UV differs from uv0 shares a vertex with a selected corner. */
  ghost predicate ChangedNearSelection(uv0: seq<Point>, uv: seq<Point>, vertOf: seq<nat>, corners: seq<Handle>) {
    |uv| == |uv0| && forall h: Handle :: h < |uv| && uv[h] != uv0[h] ==> NearSelection(vertOf, corners, h)
  }

  /** The writes of one path keep every change next to the selection. */
  lemma PathStaysNearSelection(uv0: seq<Point>, uv1: seq<Point>, uv2: seq<Point>, vertOf: seq<nat>,
                               corners: seq<Handle>, t: LoopTable, tol: real, keys: seq<Key>,
                               movable: seq<bool>, written: set<Handle>)
    requires ChangedNearSelection(uv0, uv1, vertOf, corners)
    requires MovableWrites(uv1, uv2, vertOf, t, keys, movable, written)
    requires TableOf(t, uv0, corners, tol)
    ensures ChangedNearSelection(uv0, uv2, vertOf, corners)
  {
    forall h: Handle | h < |uv2| && uv2[h] != uv0[h]
      ensures NearSelection(vertOf, corners, h)
    {
      if uv2[h] != uv1[h] {
        assert h in written;
        var i, l :| FromMovable(vertOf, t, keys, movable, h, i, l);
        assert l in corners;
        var j :| 0 <= j < |corners| && corners[j] == l;
        assert vertOf[corners[j]] == vertOf[h];
      }
    }
  }

  /**
   * The body of execute for one mesh object: build the key graph and the
   * loop table from the selected UV edges at the graph tolerance, split the
   * graph into components, walk each component into paths and run the
   * operator's per-path body on every path. With no selected edge the
   * object is left alone; a component that yields no path is a skip. Only
   * loops sharing a vertex with a corner of a selected edge change.
   */
  method RunObject(mesh: Mesh, sel: seq<(Handle, Handle)>, op: Operator, dist: Metric<Point>, stats: Stats)
    returns (stats': Stats)
    requires mesh.Valid() && SelectionInRange(sel, |mesh.uv|)
    modifies mesh
    ensures mesh.Valid()
    ensures ChangedNearSelection(old(mesh.uv), mesh.uv, mesh.vertOf, Corners(sel))
    ensures sel == [] ==> stats' == stats && mesh.uv == old(mesh.uv)
    ensures stats'.processed >= stats.processed && stats'.skipped >= stats.skipped
  {
    stats' := stats;
    if sel == [] {
      return;
    }
    var tol := GraphTolerance(WeldTolerance(op));
    ghost var uv0 := mesh.uv;
    var g, nodes := BuildGraph(EdgePoints(mesh.uv, sel), tol);
    var t := BuildLoopTable(mesh, sel, tol);
    var comps := ConnectedComponents(g);
    if comps == [] {
      return stats'.(skipped := stats'.skipped + 1);
    }
    for c := 0 to |comps|
      invariant mesh.Valid() && TableInRange(t, |mesh.uv|)
      invariant ChangedNearSelection(uv0, mesh.uv, mesh.vertOf, Corners(sel))
      invariant stats'.processed >= stats.processed && stats'.skipped >= stats.skipped
    {
      var sub := Restrict(g, comps[c]);
      var paths, _ := ExtractPaths(sub, AdjacentEnds);
      if paths == [] {
        stats' := stats'.(skipped := stats'.skipped + 1);
        continue;
      }
      for p := 0 to |paths|
        invariant mesh.Valid() && TableInRange(t, |mesh.uv|)
        invariant ChangedNearSelection(uv0, mesh.uv, mesh.vertOf, Corners(sel))
        invariant stats'.processed >= stats.processed && stats'.skipped >= stats.skipped
      {
        ghost var uv1 := mesh.uv;
        var keys := paths[p].keys;
        match op {
          case Spacing(s) =>
            var next, _, _, written, _, _, _, _ := EqualizePath(mesh, sub, keys, t, s, dist, stats');
            PathStaysNearSelection(uv0, uv1, mesh.uv, mesh.vertOf, Corners(sel), t, tol, keys,
                                   MovableMask(sub, keys, ResolveClosed(s.closedLoop, sub, keys)), written);
            stats' := next;
          case StraightenOpen(w) =>
            var next, _, written, _, _ := StraightenPath(mesh, sub, keys, t, w, dist, stats');
            PathStaysNearSelection(uv0, uv1, mesh.uv, mesh.vertOf, Corners(sel), t, tol, keys,
                                   MovableMask(sub, keys, false), written);
            stats' := next;
        }
      }
    }
  }
}
