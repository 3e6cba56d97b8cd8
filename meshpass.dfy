/**
 * The part of an edit-mode mesh that the UV operators read and write, and
 * the per-path steps the equalize and match-3D operators share: the table
 * from graph keys to the loops recorded for them (`uv_to_loops`), reading a
 * path's UVs through it, the seam test, the set of weld keys that move, and
 * the write of new UVs to every loop welded to a loop of a moved key.
 *
 * A BMLoop (one face corner) is a handle: an index into the mesh's tables.
 * Only the UVs change; the vertex of each corner, the corners around each
 * vertex and the vertex positions stay fixed while an operator runs.
 */
module MeshPass {
  import opened Geometry
  import opened Wrappers
  import opened Polyline
  import opened Topology

  /** A BMLoop, by its index in the mesh's loop tables. */
  type Handle = nat

  /** The `closed_loop` option of the operators: 'AUTO', 'OPEN' or 'CLOSED'. */
  datatype LoopKind = Auto | Open | Closed

  class Mesh {
    /** `loop[uv_layer].uv` of every loop. */
    var uv: seq<Point>
    /** `loop.vert` of every loop. */
    const vertOf: seq<nat>
    /** `vert.link_loops` of every vertex. */
    const linkLoops: seq<seq<Handle>>
    /** `vert.co` of every vertex. */
    const co: seq<Point3>

    /** Every loop has a UV, belongs to one vertex and appears among that vertex's loops, and only there. */
    ghost predicate Valid()
      reads this
    {
      |vertOf| == |uv| && Linked()
    }

    /** The fixed incidence tables agree with each other. */
    ghost predicate Linked() {
      && |co| == |linkLoops|
      && (forall h :: 0 <= h < |vertOf| ==> vertOf[h] < |linkLoops| && h in linkLoops[vertOf[h]])
      && (forall v, j :: 0 <= v < |linkLoops| && 0 <= j < |linkLoops[v]| ==>
            linkLoops[v][j] < |vertOf| && vertOf[linkLoops[v][j]] == v)
    }

    constructor (uv0: seq<Point>, vertOf0: seq<nat>, links: seq<seq<Handle>>, co0: seq<Point3>)
      requires |vertOf0| == |uv0| && |co0| == |links|
      requires forall h :: 0 <= h < |vertOf0| ==> vertOf0[h] < |links| && h in links[vertOf0[h]]
      requires forall v, j :: 0 <= v < |links| && 0 <= j < |links[v]| ==> links[v][j] < |vertOf0| && vertOf0[links[v][j]] == v
      ensures Valid()
      ensures uv == uv0 && vertOf == vertOf0 && linkLoops == links && co == co0
    {
      uv := uv0;
      vertOf := vertOf0;
      linkLoops := links;
      co := co0;
      new;
      assert Linked();
    }

    /** Loop h is welded to loop l: the same vertex and the same UV key at tolerance tol. */
    ghost predicate Welded(h: Handle, l: Handle, tol: real)
      reads this
    {
      && h < |uv| && l < |uv| && h < |vertOf| && l < |vertOf|
      && vertOf[h] == vertOf[l]
      && QuantizeKey(uv[h], tol) == QuantizeKey(uv[l], tol)
    }

    /**
     * utils.gather_welded_uv_loops: the loops around l's vertex whose UV has
     * l's key. The group is exactly the loops welded to l, so l is in it.
     */
    method GatherWelded(l: Handle, tol: real) returns (group: seq<Handle>)
      requires Valid() && l < |uv|
      ensures l in group
      ensures forall h :: h in group <==> Welded(h, l, tol)
    {
      var target := QuantizeKey(uv[l], tol);
      var links := linkLoops[vertOf[l]];
      group := [];
      for j := 0 to |links|
        invariant forall h :: h in group <==> h in links[..j] && h < |uv| && QuantizeKey(uv[h], tol) == target
      {
        assert links[..j + 1] == links[..j] + [links[j]];
        var h := links[j];
        assert Linked();
        assert h == linkLoops[vertOf[l]][j];
        if QuantizeKey(uv[h], tol) == target {
          group := group + [h];
        }
      }
      assert links[..|links|] == links;
      assert Linked();
      forall h: Handle
        ensures h in group <==> Welded(h, l, tol)
      {
        if h in links {
          var j :| 0 <= j < |links| && links[j] == h;
          assert h == linkLoops[vertOf[l]][j];
        }
        if Welded(h, l, tol) {
          assert h in linkLoops[vertOf[h]];
        }
      }
    }
  }

  // ---------------------------------------------------------------------
  // uv_to_loops

  /** `uv_to_loops`: the loops recorded for each graph key, in the order they were seen. */
  type LoopTable = map<Key, seq<Handle>>

  /** `uv_to_loops.get(k, [])`. */
  function LoopsAt(t: LoopTable, k: Key): seq<Handle> {
    if k in t then t[k] else []
  }

  /** Every recorded loop is a loop of a mesh with n loops. */
  ghost predicate TableInRange(t: LoopTable, n: nat) {
    forall k, j :: 0 <= j < |LoopsAt(t, k)| ==> LoopsAt(t, k)[j] < n
  }

  /** The loops the selected edges record, in order: each loop, then its `link_loop_next`. */
  function Corners(sel: seq<(Handle, Handle)>): (r: seq<Handle>)
    ensures |r| == 2 * |sel|
  {
    if sel == [] then [] else Corners(sel[..|sel| - 1]) + [sel[|sel| - 1].0, sel[|sel| - 1].1]
  }

  /** Both loops of every selected edge are loops of a mesh with n loops. */
  ghost predicate SelectionInRange(sel: seq<(Handle, Handle)>, n: nat) {
    forall j :: 0 <= j < |sel| ==> sel[j].0 < n && sel[j].1 < n
  }

  /** The UV end points of the selected edges, from which the key graph is built. */
  function EdgePoints(uv: seq<Point>, sel: seq<(Handle, Handle)>): (edges: seq<(Point, Point)>)
    requires SelectionInRange(sel, |uv|)
    ensures |edges| == |sel|
    ensures forall j :: 0 <= j < |sel| ==> edges[j] == (uv[sel[j].0], uv[sel[j].1])
  {
    seq(|sel|, j requires 0 <= j < |sel| => (uv[sel[j].0], uv[sel[j].1]))
  }

  /** The loop table of the corners seen so far, at tolerance tol. */
  ghost predicate TableOf(t: LoopTable, uv: seq<Point>, corners: seq<Handle>, tol: real) {
    forall k, h :: h in LoopsAt(t, k) <==> h in corners && h < |uv| && QuantizeKey(uv[h], tol) == k
  }

  /** The first loop recorded for key k is one whose UV is the first point seen with k. */
  ghost predicate FirstLoopAt(t: LoopTable, uv: seq<Point>, edges: seq<(Point, Point)>, tol: real, k: Key) {
    && (k in t <==> FirstPoint(edges, tol, k).Some?)
    && (k in t ==> t[k] != [] && t[k][0] < |uv| && uv[t[k][0]] == FirstPoint(edges, tol, k).value)
  }

  ghost predicate FirstLoops(t: LoopTable, uv: seq<Point>, edges: seq<(Point, Point)>, tol: real) {
    forall k :: FirstLoopAt(t, uv, edges, tol, k)
  }

  /** `uv_to_loops.setdefault(key(uv[h]), []).append(h)`. */
  function Record(t: LoopTable, uv: seq<Point>, h: Handle, tol: real): LoopTable
    requires h < |uv|
  {
    var k := QuantizeKey(uv[h], tol);
    t[k := LoopsAt(t, k) + [h]]
  }

  /** Recording one loop adds it to its key and nowhere else. */
  lemma RecordTable(t: LoopTable, uv: seq<Point>, corners: seq<Handle>, h: Handle, tol: real)
    requires h < |uv| && TableOf(t, uv, corners, tol)
    ensures TableOf(Record(t, uv, h, tol), uv, corners + [h], tol)
  {
    forall k: Key, x: Handle
      ensures x in LoopsAt(Record(t, uv, h, tol), k) <==> x in corners + [h] && x < |uv| && QuantizeKey(uv[x], tol) == k
    {
      RecordTableAt(t, uv, corners, h, tol, k, x);
    }
  }

  /** RecordTable at one key and one loop. */
  lemma RecordTableAt(t: LoopTable, uv: seq<Point>, corners: seq<Handle>, h: Handle, tol: real, k: Key, x: Handle)
    requires h < |uv| && TableOf(t, uv, corners, tol)
    ensures x in LoopsAt(Record(t, uv, h, tol), k) <==> x in corners + [h] && x < |uv| && QuantizeKey(uv[x], tol) == k
  {
    var t' := Record(t, uv, h, tol);
    assert x in LoopsAt(t, k) <==> x in corners && x < |uv| && QuantizeKey(uv[x], tol) == k;
    assert x in corners + [h] <==> x in corners || x == h;
    if k == QuantizeKey(uv[h], tol) {
      assert LoopsAt(t', k) == LoopsAt(t, k) + [h];
    } else {
      assert LoopsAt(t', k) == LoopsAt(t, k);
    }
  }

  /** Recording a loop of the mesh keeps every recorded loop in range. */
  lemma RecordInRange(t: LoopTable, uv: seq<Point>, h: Handle, tol: real)
    requires h < |uv| && TableInRange(t, |uv|)
    ensures TableInRange(Record(t, uv, h, tol), |uv|)
  {
    var t' := Record(t, uv, h, tol);
    var kh := QuantizeKey(uv[h], tol);
    forall k, j | 0 <= j < |LoopsAt(t', k)|
      ensures LoopsAt(t', k)[j] < |uv|
    {
      if k == kh {
        assert LoopsAt(t', k) == LoopsAt(t, k) + [h];
        if j < |LoopsAt(t, k)| {
          assert LoopsAt(t', k)[j] == LoopsAt(t, k)[j];
        }
      } else {
        assert LoopsAt(t', k) == LoopsAt(t, k);
      }
    }
  }

  /** The first point of a key among the ends of a single edge. */
  lemma FirstPointSingle(e: (Point, Point), tol: real, k: Key)
    ensures FirstPoint([e], tol, k) ==
              if QuantizeKey(e.0, tol) == k then Some(e.0)
              else if QuantizeKey(e.1, tol) == k then Some(e.1)
              else None
  {
    assert [e][1..] == [];
  }

  /** Recording both loops of an edge keeps the first loop of every key right. */
  lemma RecordFirst(t: LoopTable, uv: seq<Point>, edges: seq<(Point, Point)>, a: Handle, b: Handle, tol: real, k: Key)
    requires a < |uv| && b < |uv| && FirstLoopAt(t, uv, edges, tol, k)
    ensures FirstLoopAt(Record(Record(t, uv, a, tol), uv, b, tol), uv, edges + [(uv[a], uv[b])], tol, k)
  {
    FirstPointAppend(edges, (uv[a], uv[b]), tol, k);
    FirstPointSingle((uv[a], uv[b]), tol, k);
  }

  /** Recording the two loops of one more selected edge keeps both table invariants. */
  lemma RecordStep(t: LoopTable, uv: seq<Point>, sel: seq<(Handle, Handle)>, tol: real, j: nat)
    requires SelectionInRange(sel, |uv|) && j < |sel|
    requires TableOf(t, uv, Corners(sel[..j]), tol)
    requires FirstLoops(t, uv, EdgePoints(uv, sel)[..j], tol)
    ensures var t' := Record(Record(t, uv, sel[j].0, tol), uv, sel[j].1, tol);
            TableOf(t', uv, Corners(sel[..j + 1]), tol) && FirstLoops(t', uv, EdgePoints(uv, sel)[..j + 1], tol)
  {
    var (a, b) := sel[j];
    var edges := EdgePoints(uv, sel);
    assert sel[..j + 1][..j] == sel[..j];
    assert Corners(sel[..j + 1]) == Corners(sel[..j]) + [a] + [b];
    assert edges[..j + 1] == edges[..j] + [(uv[a], uv[b])];
    RecordTable(t, uv, Corners(sel[..j]), a, tol);
    RecordTable(Record(t, uv, a, tol), uv, Corners(sel[..j]) + [a], b, tol);
    var t' := Record(Record(t, uv, a, tol), uv, b, tol);
    var seen := edges[..j + 1];
    forall k
      ensures FirstLoopAt(t', uv, seen, tol, k)
    {
      RecordFirst(t, uv, edges[..j], a, b, tol, k);
    }
  }

  /**
   * The `add_map` calls of the operators' selection loop: every loop of a
   * selected edge is recorded under the graph key of its UV and nowhere
   * else, a key has loops exactly when some selected end point has that
   * key, and the first loop of a key carries the first point the graph
   * builder keeps for it.
   */
  method BuildLoopTable(mesh: Mesh, sel: seq<(Handle, Handle)>, tol: real) returns (t: LoopTable)
    requires SelectionInRange(sel, |mesh.uv|)
    ensures TableOf(t, mesh.uv, Corners(sel), tol)
    ensures FirstLoops(t, mesh.uv, EdgePoints(mesh.uv, sel), tol)
    ensures TableInRange(t, |mesh.uv|)
  {
    t := map[];
    var uv := mesh.uv;
    for j := 0 to |sel|
      invariant TableOf(t, uv, Corners(sel[..j]), tol)
      invariant FirstLoops(t, uv, EdgePoints(uv, sel)[..j], tol)
      invariant TableInRange(t, |uv|)
    {
      RecordStep(t, uv, sel, tol, j);
      RecordInRange(t, uv, sel[j].0, tol);
      RecordInRange(Record(t, uv, sel[j].0, tol), uv, sel[j].1, tol);
      t := Record(Record(t, uv, sel[j].0, tol), uv, sel[j].1, tol);
    }
    assert sel[..|sel|] == sel;
    assert EdgePoints(uv, sel)[..|sel|] == EdgePoints(uv, sel);
  }

  /**
   * Every key of the graph built from the selected edges has a recorded
   * loop, whose UV is the point the builder keeps for the key: reading a
   * path of the graph through the table never fails before the first write.
   */
  lemma GraphKeysHaveLoops(uv: seq<Point>, sel: seq<(Handle, Handle)>, tol: real, t: LoopTable,
                           g: Graph, nodes: map<Key, Point>, k: Key)
    requires SelectionInRange(sel, |uv|)
    requires FirstLoops(t, uv, EdgePoints(uv, sel), tol)
    requires nodes.Keys == g.Keys && FirstPoints(nodes, EdgePoints(uv, sel), tol)
    requires k in g
    ensures LoopsAt(t, k) != [] && LoopsAt(t, k)[0] < |uv| && uv[LoopsAt(t, k)[0]] == nodes[k]
  {
    assert FirstLoopAt(t, uv, EdgePoints(uv, sel), tol, k);
  }

  // ---------------------------------------------------------------------
  // Reading a path

  /** Every key has at least one recorded loop. */
  ghost predicate AllRecorded(t: LoopTable, keys: seq<Key>) {
    forall i :: 0 <= i < |keys| ==> LoopsAt(t, keys[i]) != []
  }

  /** The UV of the first loop of each key. */
  function FirstUvs(uv: seq<Point>, t: LoopTable, keys: seq<Key>): (pts: seq<Point>)
    requires TableInRange(t, |uv|) && AllRecorded(t, keys)
    ensures |pts| == |keys|
  {
    seq(|keys|, i requires 0 <= i < |keys| => uv[LoopsAt(t, keys[i])[0]])
  }

  /**
   * `_read_points_from_mesh` / `read_uvs`: the UV of the first loop of every
   * key, or None as soon as a key has no loop.
   */
  method ReadPoints(mesh: Mesh, t: LoopTable, keys: seq<Key>) returns (pts: Option<seq<Point>>)
    requires TableInRange(t, |mesh.uv|)
    ensures pts.Some? <==> AllRecorded(t, keys)
    ensures pts.Some? ==> pts.value == FirstUvs(mesh.uv, t, keys)
  {
    var acc: seq<Point> := [];
    for i := 0 to |keys|
      invariant AllRecorded(t, keys[..i])
      invariant |acc| == i && forall j :: 0 <= j < i ==> acc[j] == mesh.uv[LoopsAt(t, keys[j])[0]]
    {
      var loops := LoopsAt(t, keys[i]);
      if loops == [] {
        assert !AllRecorded(t, keys);
        return None;
      }
      acc := acc + [mesh.uv[loops[0]]];
    }
    assert keys[..|keys|] == keys;
    return Some(acc);
  }

  /** The 3D position of the vertex of the first loop of each key. */
  function FirstPositions(mesh: Mesh, t: LoopTable, keys: seq<Key>): (pts: seq<Point3>)
    reads mesh
    requires mesh.Valid() && TableInRange(t, |mesh.uv|) && AllRecorded(t, keys)
    ensures |pts| == |keys|
  {
    seq(|keys|, i requires 0 <= i < |keys| => mesh.co[mesh.vertOf[LoopsAt(t, keys[i])[0]]])
  }

  /** `read_v3`: the position of the vertex of the first loop of every key, or None. */
  method ReadPositions(mesh: Mesh, t: LoopTable, keys: seq<Key>) returns (pts: Option<seq<Point3>>)
    requires mesh.Valid() && TableInRange(t, |mesh.uv|)
    ensures pts.Some? <==> AllRecorded(t, keys)
    ensures pts.Some? ==> pts.value == FirstPositions(mesh, t, keys)
  {
    var acc: seq<Point3> := [];
    for i := 0 to |keys|
      invariant AllRecorded(t, keys[..i])
      invariant |acc| == i && forall j :: 0 <= j < i ==> acc[j] == mesh.co[mesh.vertOf[LoopsAt(t, keys[j])[0]]]
    {
      var loops := LoopsAt(t, keys[i]);
      if loops == [] {
        assert !AllRecorded(t, keys);
        return None;
      }
      acc := acc + [mesh.co[mesh.vertOf[loops[0]]]];
    }
    assert keys[..|keys|] == keys;
    return Some(acc);
  }

  // ---------------------------------------------------------------------
  // need_unwrap

  /** The step from point i to the next (cyclically) is longer than 0.5 along an axis. */
  ghost predicate SeamStepAt(points: seq<Point>, i: nat)
    requires i < |points|
  {
    var a := points[i];
    var b := points[(i + 1) % |points|];
    Abs(b.x - a.x) > 0.5 || Abs(b.y - a.y) > 0.5
  }

  /** A closed path of at least 3 points that crosses the UV seam somewhere, the closing step included. */
  ghost predicate CrossesSeam(points: seq<Point>, closed: bool) {
    closed && |points| >= 3 && exists i :: 0 <= i < |points| && SeamStepAt(points, i)
  }

  /** `_need_unwrap` / `need_unwrap`: whether the path crosses the seam, by a scan of its steps. */
  method NeedUnwrap(points: seq<Point>, closed: bool) returns (r: bool)
    ensures r == CrossesSeam(points, closed)
  {
    if !closed || |points| < 3 {
      return false;
    }
    for i := 0 to |points|
      invariant forall j :: 0 <= j < i ==> !SeamStepAt(points, j)
    {
      var a := points[i];
      var b := points[(i + 1) % |points|];
      if Abs(b.x - a.x) > 0.5 || Abs(b.y - a.y) > 0.5 {
        assert SeamStepAt(points, i);
        return true;
      }
    }
    return false;
  }

  /**
   * When no step crosses the seam, unwrapping would change nothing: skipping
   * unwrap_cycle01 for such a path loses nothing.
   */
  lemma NoSeamStepNoUnwrap(points: seq<Point>, out: seq<Point>)
    requires forall i :: 0 <= i < |points| ==> !SeamStepAt(points, i)
    requires |out| == |points| && forall i :: 0 <= i < |points| ==> out[i] == Unwrapped(points, i)
    ensures out == points
  {
    forall i | 0 < i < |points|
      ensures ShortStep(points, i)
    {
      NextIndex(i - 1, |points|);
      assert !SeamStepAt(points, i - 1);
    }
    UnwrapIdentityWithoutJumps(points, out);
  }

  // ---------------------------------------------------------------------
  // New UVs per key

  /**
   * `[new_pts[idx_map[i]] for i in range(len(ordered_keys))]` as written:
   * None stands for the IndexError raised when an index is past the end.
   */
  function ByKeyAsWritten(newPts: seq<Point>, idxMap: seq<nat>): (r: Option<seq<Point>>)
    ensures r.Some? <==> forall i :: 0 <= i < |idxMap| ==> idxMap[i] < |newPts|
    ensures r.Some? ==> |r.value| == |idxMap| && forall i :: 0 <= i < |idxMap| ==> r.value[i] == newPts[idxMap[i]]
  {
    if forall i :: 0 <= i < |idxMap| ==> idxMap[i] < |newPts| then
      Some(seq(|idxMap|, i requires 0 <= i < |idxMap| => newPts[idxMap[i]]))
    else None
  }

  /**
   * The new UV of every key: the new point its dedup index stands for. An
   * index past the end (the last point of a closed loop that the second
   * deduplication inside redistribute_evenly dropped because it lies within
   * eps of the first) takes the first new point, as dedup_with_map does
   * for the point it drops itself.
   */
  function ByKey(newPts: seq<Point>, idxMap: seq<nat>): (r: seq<Point>)
    requires |newPts| > 0
    ensures |r| == |idxMap|
    ensures forall i :: 0 <= i < |idxMap| ==> r[i] in newPts
    ensures ByKeyAsWritten(newPts, idxMap).Some? ==> r == ByKeyAsWritten(newPts, idxMap).value
  {
    seq(|idxMap|, i requires 0 <= i < |idxMap| => if idxMap[i] < |newPts| then newPts[idxMap[i]] else newPts[0])
  }

  // ---------------------------------------------------------------------
  // moved_vis_keys

  /** The weld keys of the movable points whose weld key the update changes. */
  function MovedKeys(current: seq<Point>, updated: seq<Point>, movable: seq<bool>, tol: real): set<Key>
    requires |current| == |updated| == |movable|
  {
    set i | 0 <= i < |current| && movable[i] && QuantizeKey(current[i], tol) != QuantizeKey(updated[i], tol)
          :: QuantizeKey(current[i], tol)
  }

  /** An update that keeps every movable point in its weld cell moves no key. */
  lemma StillPointsMoveNoKey(current: seq<Point>, updated: seq<Point>, movable: seq<bool>, tol: real)
    requires |current| == |updated| == |movable|
    requires forall i :: 0 <= i < |current| && movable[i] ==> QuantizeKey(current[i], tol) == QuantizeKey(updated[i], tol)
    ensures MovedKeys(current, updated, movable, tol) == {}
  {
  }

  /** The moved keys of the first i + 1 points: those of the first i, and point i's key if it moved. */
  lemma MovedKeysStep(current: seq<Point>, updated: seq<Point>, movable: seq<bool>, tol: real, i: nat)
    requires |current| == |updated| == |movable| && i < |current|
    ensures MovedKeys(current[..i + 1], updated[..i + 1], movable[..i + 1], tol) ==
              MovedKeys(current[..i], updated[..i], movable[..i], tol) +
              (if movable[i] && QuantizeKey(current[i], tol) != QuantizeKey(updated[i], tol)
               then {QuantizeKey(current[i], tol)} else {})
  {
    assert current[..i + 1][..i] == current[..i];
    assert updated[..i + 1][..i] == updated[..i];
    assert movable[..i + 1][..i] == movable[..i];
  }

  /**
   * The loop that adds `uv_key_weld(current[i])` to `moved_vis_keys` for
   * every movable point whose weld key changes: the keys already collected
   * and exactly the moved keys of this update.
   */
  method CollectMoved(current: seq<Point>, updated: seq<Point>, movable: seq<bool>, tol: real, acc0: set<Key>)
    returns (acc: set<Key>)
    requires |current| == |updated| == |movable|
    ensures acc == acc0 + MovedKeys(current, updated, movable, tol)
  {
    acc := acc0;
    for i := 0 to |current|
      invariant acc == acc0 + MovedKeys(current[..i], updated[..i], movable[..i], tol)
    {
      MovedKeysStep(current, updated, movable, tol, i);
      var cur := QuantizeKey(current[i], tol);
      if movable[i] && cur != QuantizeKey(updated[i], tol) {
        acc := acc + {cur};
      }
    }
    assert current[..|current|] == current;
    assert updated[..|current|] == updated;
    assert movable[..|current|] == movable;
  }

  // ---------------------------------------------------------------------
  // Write-back

  /**
   * Loop h may be written through loop l of key i: key i is movable, l is
   * one of its recorded loops, and h shares l's vertex.
   */
  ghost predicate FromMovable(vertOf: seq<nat>, t: LoopTable, keys: seq<Key>, movable: seq<bool>, h: Handle, i: nat, l: Handle) {
    && i < |keys| && i < |movable| && movable[i]
    && l in LoopsAt(t, keys[i])
    && h < |vertOf| && l < |vertOf| && vertOf[l] == vertOf[h]
  }

  /**
   * Why a loop was written: the index of the movable key, the recorded loop
   * of that key whose weld group held it, and that loop's UV when the group
   * was gathered.
   */
  type Origin = map<Handle, (nat, Handle, Point)>

  /**
   * What the `applied` loop has done so far: every applied loop carries the
   * new UV of the movable key it was written for and is welded to one of
   * that key's recorded loops as the pass found it (`origin` names key,
   * loop and the loop's UV then): it shares the loop's vertex, and its own
   * UV before the pass had the weld key of that loop's UV at gathering,
   * which is the loop's UV before the pass or, if an earlier key had
   * already written the loop, the UV it holds now. Every other loop keeps
   * its UV.
   */
  ghost predicate WriteLog(uv0: seq<Point>, uv: seq<Point>, vertOf: seq<nat>, t: LoopTable, keys: seq<Key>,
                           movable: seq<bool>, newUvs: seq<Point>, weldTol: real, applied: set<Handle>, origin: Origin) {
    && |uv| == |uv0|
    && origin.Keys == applied
    && (forall h :: h in applied ==> Logged(uv0, uv, vertOf, t, keys, movable, newUvs, weldTol, applied, h, origin[h]))
    && (forall h :: 0 <= h < |uv| && h !in applied ==> uv[h] == uv0[h])
  }

  /**
   * Applied loop h was written for key `why.0` through its recorded loop
   * l == `why.1`: it shares l's vertex and holds the key's new UV, and
   * before the pass it had the weld key of `why.2`, l's UV when its group
   * was gathered, which is l's UV before the pass or the UV an earlier key
   * wrote to it.
   */
  ghost predicate Logged(uv0: seq<Point>, uv: seq<Point>, vertOf: seq<nat>, t: LoopTable, keys: seq<Key>,
                         movable: seq<bool>, newUvs: seq<Point>, weldTol: real, applied: set<Handle>,
                         h: Handle, why: (nat, Handle, Point)) {
    && h < |uv| && h < |uv0| && why.1 < |uv0| && why.1 < |uv|
    && FromMovable(vertOf, t, keys, movable, h, why.0, why.1)
    && why.0 < |newUvs|
    && uv[h] == newUvs[why.0]
    && WeldKeyBefore(uv0, h, why.2, weldTol)
    && (why.2 == uv0[why.1] || (why.1 in applied && why.2 == uv[why.1]))
  }

  /** Before the pass, loop h had the weld key of `anchor`. */
  ghost predicate WeldKeyBefore(uv0: seq<Point>, h: Handle, anchor: Point, weldTol: real) {
    h < |uv0| && QuantizeKey(uv0[h], weldTol) == QuantizeKey(anchor, weldTol)
  }

  /** Loops h1 and h2 share a vertex and had the same weld key before the pass. */
  ghost predicate WeldMates(uv0: seq<Point>, vertOf: seq<nat>, weldTol: real, h1: Handle, h2: Handle) {
    && h1 < |uv0| && h2 < |uv0| && h1 < |vertOf| && h2 < |vertOf|
    && vertOf[h1] == vertOf[h2]
    && QuantizeKey(uv0[h1], weldTol) == QuantizeKey(uv0[h2], weldTol)
  }

  /** Every loop that was welded, before the pass, to an applied loop is applied too. */
  ghost predicate WeldClosed(uv0: seq<Point>, vertOf: seq<nat>, weldTol: real, applied: set<Handle>) {
    forall h1, h2 {:trigger WeldMates(uv0, vertOf, weldTol, h1, h2)} ::
      h1 in applied && WeldMates(uv0, vertOf, weldTol, h1, h2) ==> h2 in applied
  }

  /**
   * A weld group gathered from the UVs `uv` is written on top of a
   * weld-closed set `applied0`: the result stays weld-closed, because a
   * loop not applied before still had its pre-pass UV when the group was
   * gathered, so a pre-pass weld mate of a newly written loop was in the
   * group.
   */
  lemma GroupKeepsWeldClosed(uv0: seq<Point>, uv: seq<Point>, vertOf: seq<nat>, weldTol: real, l: Handle,
                             anchor: Point, group: seq<Handle>, applied0: set<Handle>, applied: set<Handle>)
    requires |uv| == |uv0| && WeldClosed(uv0, vertOf, weldTol, applied0)
    requires forall h :: 0 <= h < |uv| && h !in applied0 ==> uv[h] == uv0[h]
    requires forall h :: (0 <= h < |uv| && h < |vertOf| && l < |vertOf| && vertOf[h] == vertOf[l] &&
                          QuantizeKey(uv[h], weldTol) == QuantizeKey(anchor, weldTol)) ==> h in group
    requires forall h :: h in group && h !in applied0 ==>
                         h < |vertOf| && l < |vertOf| && vertOf[h] == vertOf[l] && WeldKeyBefore(uv0, h, anchor, weldTol)
    requires applied0 <= applied && (forall h :: h in group ==> h in applied)
    requires forall h :: h in applied ==> h in applied0 || h in group
    ensures WeldClosed(uv0, vertOf, weldTol, applied)
  {
    forall h1: Handle, h2: Handle | h1 in applied && WeldMates(uv0, vertOf, weldTol, h1, h2)
      ensures h2 in applied
    {
      if h1 !in applied0 && h2 !in applied0 {
        assert h1 in group && uv[h2] == uv0[h2];
      }
    }
  }

  /**
   * With every recorded loop of every movable key written and the written
   * set weld-closed, every loop that shared a vertex and a weld key with a
   * recorded loop of a movable key before the pass is written.
   */
  lemma WeldedPartnersWritten(uv0: seq<Point>, vertOf: seq<nat>, t: LoopTable, keys: seq<Key>, movable: seq<bool>,
                              weldTol: real, applied: set<Handle>, i: nat, l: Handle, h: Handle)
    requires |movable| == |keys| && Covered(t, keys, movable, applied, |keys|)
    requires WeldClosed(uv0, vertOf, weldTol, applied)
    requires i < |keys| && movable[i] && l in LoopsAt(t, keys[i]) && WeldMates(uv0, vertOf, weldTol, l, h)
    ensures h in applied
  {
    assert l in applied;
  }

  /** Every recorded loop of every movable key among the first m is applied. */
  ghost predicate Covered(t: LoopTable, keys: seq<Key>, movable: seq<bool>, applied: set<Handle>, m: nat)
    requires m <= |keys| && |movable| == |keys|
  {
    forall i, l :: 0 <= i < m && movable[i] && l in LoopsAt(t, keys[i]) ==> l in applied
  }

  /** The innermost loop: write the new UV of key i to every loop of one weld group not yet applied. */
  method WriteGroup(mesh: Mesh, group: seq<Handle>, t: LoopTable, keys: seq<Key>, movable: seq<bool>,
                    newUvs: seq<Point>, weldTol: real, i: nat, l: Handle, ghost anchor: Point, ghost uv0: seq<Point>,
                    applied0: set<Handle>, ghost origin0: Origin)
    returns (applied: set<Handle>, ghost origin: Origin)
    requires mesh.Valid() && i < |newUvs| && l < |uv0|
    requires WriteLog(uv0, mesh.uv, mesh.vertOf, t, keys, movable, newUvs, weldTol, applied0, origin0)
    requires forall h :: h in group ==> FromMovable(mesh.vertOf, t, keys, movable, h, i, l)
    requires forall h :: h in group && h !in applied0 ==> WeldKeyBefore(uv0, h, anchor, weldTol)
    requires anchor == uv0[l] || (l in applied0 && anchor == mesh.uv[l])
    modifies mesh
    ensures mesh.Valid()
    ensures WriteLog(uv0, mesh.uv, mesh.vertOf, t, keys, movable, newUvs, weldTol, applied, origin)
    ensures applied0 <= applied && forall h :: h in group ==> h in applied
    ensures forall h :: h in applied ==> h in applied0 || h in group
  {
    applied, origin := applied0, origin0;
    for j := 0 to |group|
      invariant mesh.Valid()
      invariant WriteLog(uv0, mesh.uv, mesh.vertOf, t, keys, movable, newUvs, weldTol, applied, origin)
      invariant applied0 <= applied && forall h :: h in group[..j] ==> h in applied
      invariant forall h :: h in applied ==> h in applied0 || h in group
      invariant anchor == uv0[l] || (l in applied && anchor == mesh.uv[l])
    {
      assert group[..j + 1] == group[..j] + [group[j]];
      var h := group[j];
      if h !in applied {
        applied, origin := WriteOne(mesh, t, keys, movable, newUvs, weldTol, i, l, anchor, uv0, applied, origin, h);
      }
    }
    assert group[..|group|] == group;
  }

  /** One loop of a weld group, not yet applied, gets key i's new UV. */
  method WriteOne(mesh: Mesh, t: LoopTable, keys: seq<Key>, movable: seq<bool>, newUvs: seq<Point>, weldTol: real,
                  i: nat, l: Handle, ghost anchor: Point, ghost uv0: seq<Point>,
                  applied0: set<Handle>, ghost origin0: Origin, h: Handle)
    returns (applied: set<Handle>, ghost origin: Origin)
    requires mesh.Valid() && i < |newUvs| && l < |uv0| && h !in applied0
    requires WriteLog(uv0, mesh.uv, mesh.vertOf, t, keys, movable, newUvs, weldTol, applied0, origin0)
    requires FromMovable(mesh.vertOf, t, keys, movable, h, i, l)
    requires WeldKeyBefore(uv0, h, anchor, weldTol)
    requires anchor == uv0[l] || (l in applied0 && anchor == mesh.uv[l])
    modifies mesh
    ensures mesh.Valid() && mesh.uv == old(mesh.uv)[h := newUvs[i]]
    ensures applied == applied0 + {h} && origin == origin0[h := (i, l, anchor)]
    ensures WriteLog(uv0, mesh.uv, mesh.vertOf, t, keys, movable, newUvs, weldTol, applied, origin)
  {
    ghost var uv := mesh.uv;
    mesh.uv := mesh.uv[h := newUvs[i]];
    applied := applied0 + {h};
    origin := origin0[h := (i, l, anchor)];
    LogWrite(uv0, uv, mesh.vertOf, t, keys, movable, newUvs, weldTol, applied0, origin0, h, i, l, anchor);
  }

  /** Writing a loop not yet applied keeps what the log says of an applied one. */
  lemma LoggedKept(uv0: seq<Point>, uv: seq<Point>, vertOf: seq<nat>, t: LoopTable, keys: seq<Key>,
                   movable: seq<bool>, newUvs: seq<Point>, weldTol: real, applied: set<Handle>,
                   x: Handle, why: (nat, Handle, Point), h: Handle, v: Point)
    requires Logged(uv0, uv, vertOf, t, keys, movable, newUvs, weldTol, applied, x, why)
    requires x in applied && h !in applied && h < |uv|
    ensures Logged(uv0, uv[h := v], vertOf, t, keys, movable, newUvs, weldTol, applied + {h}, x, why)
  {
  }

  /** After writing key i's new UV to loop h, every applied loop x, h included, is still logged. */
  lemma LogWriteAt(uv0: seq<Point>, uv: seq<Point>, vertOf: seq<nat>, t: LoopTable, keys: seq<Key>,
                   movable: seq<bool>, newUvs: seq<Point>, weldTol: real, applied: set<Handle>, origin: Origin,
                   h: Handle, i: nat, l: Handle, anchor: Point, x: Handle)
    requires WriteLog(uv0, uv, vertOf, t, keys, movable, newUvs, weldTol, applied, origin)
    requires h !in applied && i < |newUvs| && l < |uv0|
    requires FromMovable(vertOf, t, keys, movable, h, i, l)
    requires WeldKeyBefore(uv0, h, anchor, weldTol)
    requires anchor == uv0[l] || (l in applied && anchor == uv[l])
    requires x in applied + {h}
    ensures Logged(uv0, uv[h := newUvs[i]], vertOf, t, keys, movable, newUvs, weldTol, applied + {h},
                   x, origin[h := (i, l, anchor)][x])
  {
    if x == h {
      assert origin[h := (i, l, anchor)][x] == (i, l, anchor);
    } else {
      assert origin[h := (i, l, anchor)][x] == origin[x];
      LoggedKept(uv0, uv, vertOf, t, keys, movable, newUvs, weldTol, applied, x, origin[x], h, newUvs[i]);
    }
  }

  /** Writing key i's new UV to loop h, not yet applied, extends the log by h. */
  lemma LogWrite(uv0: seq<Point>, uv: seq<Point>, vertOf: seq<nat>, t: LoopTable, keys: seq<Key>,
                 movable: seq<bool>, newUvs: seq<Point>, weldTol: real, applied: set<Handle>, origin: Origin,
                 h: Handle, i: nat, l: Handle, anchor: Point)
    requires WriteLog(uv0, uv, vertOf, t, keys, movable, newUvs, weldTol, applied, origin)
    requires h !in applied && i < |newUvs| && l < |uv0|
    requires FromMovable(vertOf, t, keys, movable, h, i, l)
    requires WeldKeyBefore(uv0, h, anchor, weldTol)
    requires anchor == uv0[l] || (l in applied && anchor == uv[l])
    ensures WriteLog(uv0, uv[h := newUvs[i]], vertOf, t, keys, movable, newUvs, weldTol,
                     applied + {h}, origin[h := (i, l, anchor)])
  {
    forall x | x in applied + {h}
      ensures Logged(uv0, uv[h := newUvs[i]], vertOf, t, keys, movable, newUvs, weldTol, applied + {h},
                     x, origin[h := (i, l, anchor)][x])
    {
      LogWriteAt(uv0, uv, vertOf, t, keys, movable, newUvs, weldTol, applied, origin, h, i, l, anchor, x);
    }
    assert origin[h := (i, l, anchor)].Keys == applied + {h};
  }

  /** One recorded loop l of key i: gather the loops welded to it and write them. */
  method WriteLoop(mesh: Mesh, t: LoopTable, keys: seq<Key>, movable: seq<bool>, newUvs: seq<Point>,
                   i: nat, l: Handle, weldTol: real, ghost uv0: seq<Point>,
                   applied0: set<Handle>, ghost origin0: Origin)
    returns (applied: set<Handle>, ghost origin: Origin)
    requires mesh.Valid() && l < |mesh.uv|
    requires i < |keys| == |movable| == |newUvs| && movable[i] && l in LoopsAt(t, keys[i])
    requires WriteLog(uv0, mesh.uv, mesh.vertOf, t, keys, movable, newUvs, weldTol, applied0, origin0)
    requires WeldClosed(uv0, mesh.vertOf, weldTol, applied0)
    modifies mesh
    ensures mesh.Valid() && |mesh.uv| == |old(mesh.uv)|
    ensures WriteLog(uv0, mesh.uv, mesh.vertOf, t, keys, movable, newUvs, weldTol, applied, origin)
    ensures applied0 <= applied && l in applied
    ensures WeldClosed(uv0, mesh.vertOf, weldTol, applied)
  {
    ghost var anchor := mesh.uv[l];
    ghost var uvGathered := mesh.uv;
    var group := mesh.GatherWelded(l, weldTol);
    forall h | h in group
      ensures FromMovable(mesh.vertOf, t, keys, movable, h, i, l)
      ensures h !in applied0 ==> WeldKeyBefore(uv0, h, anchor, weldTol)
    {
      assert mesh.Welded(h, l, weldTol);
    }
    forall h | 0 <= h < |mesh.uv| && mesh.vertOf[h] == mesh.vertOf[l] &&
               QuantizeKey(mesh.uv[h], weldTol) == QuantizeKey(anchor, weldTol)
      ensures h in group
    {
      assert mesh.Welded(h, l, weldTol);
    }
    applied, origin := WriteGroup(mesh, group, t, keys, movable, newUvs, weldTol, i, l, anchor, uv0, applied0, origin0);
    GroupKeepsWeldClosed(uv0, uvGathered, mesh.vertOf, weldTol, l, anchor, group, applied0, applied);
  }

  /** The middle loop: every recorded loop of key i and everything welded to it. */
  method WriteKey(mesh: Mesh, t: LoopTable, keys: seq<Key>, movable: seq<bool>, newUvs: seq<Point>,
                  i: nat, weldTol: real, ghost uv0: seq<Point>,
                  applied0: set<Handle>, ghost origin0: Origin)
    returns (applied: set<Handle>, ghost origin: Origin)
    requires mesh.Valid() && TableInRange(t, |mesh.uv|)
    requires i < |keys| == |movable| == |newUvs| && movable[i]
    requires WriteLog(uv0, mesh.uv, mesh.vertOf, t, keys, movable, newUvs, weldTol, applied0, origin0)
    requires WeldClosed(uv0, mesh.vertOf, weldTol, applied0)
    modifies mesh
    ensures mesh.Valid() && |mesh.uv| == |old(mesh.uv)|
    ensures WriteLog(uv0, mesh.uv, mesh.vertOf, t, keys, movable, newUvs, weldTol, applied, origin)
    ensures applied0 <= applied && forall l :: l in LoopsAt(t, keys[i]) ==> l in applied
    ensures WeldClosed(uv0, mesh.vertOf, weldTol, applied)
  {
    var loops := LoopsAt(t, keys[i]);
    applied, origin := applied0, origin0;
    for j := 0 to |loops|
      invariant mesh.Valid() && |mesh.uv| == |old(mesh.uv)|
      invariant WriteLog(uv0, mesh.uv, mesh.vertOf, t, keys, movable, newUvs, weldTol, applied, origin)
      invariant applied0 <= applied && forall l :: l in loops[..j] ==> l in applied
      invariant WeldClosed(uv0, mesh.vertOf, weldTol, applied)
    {
      assert loops[..j + 1] == loops[..j] + [loops[j]];
      applied, origin := WriteLoop(mesh, t, keys, movable, newUvs, i, loops[j], weldTol, uv0, applied, origin);
    }
    assert loops[..|loops|] == loops;
  }

  /**
   * The write-back loop of both operators: for every movable key, every
   * recorded loop and every loop welded to it gets the key's new UV, unless
   * an earlier key already wrote it (`applied`). Each written loop shares a
   * vertex with a loop of a movable key and holds that key's new UV; every
   * loop not in `applied` keeps its UV; every recorded loop of a movable key
   * is written, and so is every loop welded to a written one before the pass.
   */
  method WriteBack(mesh: Mesh, t: LoopTable, keys: seq<Key>, movable: seq<bool>, newUvs: seq<Point>, weldTol: real)
    returns (applied: set<Handle>, ghost origin: Origin)
    requires mesh.Valid() && TableInRange(t, |mesh.uv|)
    requires |keys| == |movable| == |newUvs|
    modifies mesh
    ensures mesh.Valid()
    ensures WriteLog(old(mesh.uv), mesh.uv, mesh.vertOf, t, keys, movable, newUvs, weldTol, applied, origin)
    ensures Covered(t, keys, movable, applied, |keys|)
    ensures WeldClosed(old(mesh.uv), mesh.vertOf, weldTol, applied)
  {
    ghost var uv0 := mesh.uv;
    applied, origin := {}, map[];
    for i := 0 to |keys|
      invariant mesh.Valid() && |mesh.uv| == |uv0|
      invariant WriteLog(uv0, mesh.uv, mesh.vertOf, t, keys, movable, newUvs, weldTol, applied, origin)
      invariant Covered(t, keys, movable, applied, i)
      invariant WeldClosed(uv0, mesh.vertOf, weldTol, applied)
    {
      if movable[i] {
        applied, origin := WriteKey(mesh, t, keys, movable, newUvs, i, weldTol, uv0, applied, origin);
      }
    }
  }

  // ---------------------------------------------------------------------
  // Straight chords (the straighten variants)

  /** `[a.lerp(b, f) for f in fracs]`: points along the chord from a to b. */
  function ChordPoints(a: Point, b: Point, fracs: seq<real>): (r: seq<Point>)
    ensures |r| == |fracs|
    ensures |fracs| > 0 && fracs[0] == 0.0 ==> r[0] == a
    ensures |fracs| > 0 && fracs[|fracs| - 1] == 1.0 ==> r[|r| - 1] == b
  {
    seq(|fracs|, i requires 0 <= i < |fracs| => Lerp(a, b, fracs[i]))
  }

  /** `i * step` with `step = 1.0 / (n - 1)`, for i < n: from 0 to 1 in equal steps. */
  function EvenFractions(n: nat): (f: seq<real>)
    requires n >= 2
    ensures |f| == n && f[0] == 0.0 && f[n - 1] == 1.0
  {
    var step := 1.0 / ((n - 1) as real);
    assert ((n - 1) as real) * step == 1.0;
    seq(n, i requires 0 <= i < n => (i as real) * step)
  }

  /** Two points on a chord differ by the chord times the difference of their parameters. */
  lemma LerpDifference(a: Point, b: Point, s: real, t: real)
    ensures Sub(Lerp(a, b, t), Lerp(a, b, s)) == Scale(Sub(b, a), t - s)
  {
    assert a.x * (1.0 - t) + b.x * t - (a.x * (1.0 - s) + b.x * s) == (b.x - a.x) * (t - s);
    assert a.y * (1.0 - t) + b.y * t - (a.y * (1.0 - s) + b.y * s) == (b.y - a.y) * (t - s);
  }

  /**
   * The straightened points are evenly spaced: consecutive points differ by
   * the same vector, the chord divided by n - 1.
   */
  lemma EvenChordSteps(a: Point, b: Point, n: nat, i: nat)
    requires n >= 2 && i + 1 < n
    ensures var r := ChordPoints(a, b, EvenFractions(n));
            Sub(r[i + 1], r[i]) == Scale(Sub(b, a), 1.0 / ((n - 1) as real))
  {
    var f := EvenFractions(n);
    var step := 1.0 / ((n - 1) as real);
    assert f[i + 1] - f[i] == step by {
      assert f[i + 1] == ((i + 1) as real) * step && f[i] == (i as real) * step;
      assert ((i + 1) as real) * step == (i as real) * step + step;
    }
    LerpDifference(a, b, f[i], f[i + 1]);
  }
}
