# UV loop tools: a verified model of the geometry core

This project models the geometry engine of a Blender add-on that edits UV edge
loops. The model is written in Dafny and proved with it. It covers these parts:

- **Topology.** Points are quantized to integer keys. The selected UV edges become
  an undirected key graph. The graph is split into connected components, and each
  component is split into ordered paths by a walk that uses every edge once.
  A path is flagged closed either by the adjacency of its ends or by its degrees.
- **Polyline primitives.**
  - Near-duplicate collapse with an index map.
  - Seam unwrap and wrap.
  - Arc-length redistribution.
  - Segment lengths, the coefficient of variation of the spacing, and the largest displacement.
  - Cubic Bezier sampling, resampling by length, and the closest point on a polyline.
- **The mesh table.** Each loop handle has a UV and a vertex, and each vertex knows its loops.
  On this table the model reads the UV points of a key path and writes new UVs to
  welded loops.
- **Equalize.** This operator spaces the points of each path evenly. It resolves
  the loop type and pins endpoints and junctions. It runs a bounded loop that
  stops on convergence, then writes each key's new UV to every loop welded to it.
  Its straighten-open variant puts the points of an open path evenly on the chord.
- **Match 3D ratio.** This operator places the UV points of each path at the
  fractions given by the 3D edge lengths. It has a straight variant that uses the chord.
- **The spline editor session.** It keeps the curves' control points, the
  selection and the active point as they change under insert, delete, toggle,
  resample-all, drag, snapshot and restore. It keeps a first-write-wins backup
  of every previewed UV, so that a cancel restores the UVs the editor started with.

Coordinates are exact reals. Euclidean length needs a square root, so it is a
parameter of type `Metric` (non-negative, zero exactly on equal points,
symmetric). Python's `round` is modelled as round-half-to-even. Python's float
`%` is modelled as floor-mod.

Modules, one per file:

- `geometry.dfy`: points, rounding, keys, Bezier.
- `wrappers.dfy`: `Option`.
- `polyline.dfy`: the sequence primitives of `utils.py`.
- `curves.dfy`: sampling, resampling and the closest point in `utils.py`.
- `topology.dfy`: graph, components and paths.
- `meshpass.dfy`: the mesh table, reads and welded writes.
- `equalize.dfy`: `operators/equalize.py`.
- `match3d.dfy`: `operators/match3d.py`.
- `spline.dfy`: `operators/spline.py`.

## Model

| member | source | states |
|---|---|---|
| Geometry.SqDist | utils.py:382 | squared length is non-negative and zero between a point and itself |
| Geometry.Lerp | utils.py:363 | the blend is the first point at t = 0 and the second at t = 1 |
| Geometry.Round | utils.py:140 | Python round: the result is within 0.5 of the input, and an exact tie goes to the even integer |
| Geometry.RoundMonotone | operators/match3d.py:78-84 | rounding preserves order, so a finer tolerance never gives a coarser key grid |
| Geometry.GraphToleranceIsFiner | operators/match3d.py:78-84 | for every accepted weld tolerance (1e-8 to 1e-2), the graph tolerance min(weld/4, 5e-7) is at most the weld tolerance and at most 5e-7; its key scale is at least the weld key scale, which is at least 100 |
| Geometry.WrapCoord | utils.py:140 | `x - round(x)` lies in [-0.5, 0.5] and differs from x by an integer |
| Geometry.WrapCoordFixed | utils.py:140 | the wrap leaves a coordinate unchanged exactly when it already lies in [-0.5, 0.5], both ends included |
| Geometry.WrapCoordIdempotent | utils.py:136-141 | wrapping a wrapped coordinate changes nothing |
| Geometry.BezierCubic | utils.py:278-280 | the cubic starts at b0 (t = 0) and ends at b3 (t = 1) |
| Geometry.BezierWeightsSumToOne | utils.py:278-280 | the four Bernstein weights sum to one for every t |
| Polyline.Collapse | utils.py:150-156 | the collapsed list is never longer than the input and keeps the first point |
| Polyline.CollapseSeparated | utils.py:153 | consecutive kept points are more than eps apart |
| Polyline.SeparatedIsFixed | utils.py:153 | a list whose neighbours are already more than eps apart is left unchanged |
| Polyline.CollapseIdempotent | utils.py:150-156 | collapsing twice is collapsing once |
| Polyline.DedupPoints | utils.py:150-163 | deduplication never lengthens the list and keeps the first point |
| Polyline.DedupPointsSeparated | utils.py:153-161 | after the closed-end drop, consecutive kept points are still more than eps apart |
| Polyline.RededupDropsAtMostOne | utils.py:176-181 | deduplicating an already deduplicated list removes at most the last point, and does so exactly when the list still closes on itself |
| Polyline.CollapseWithMap | utils.py:150-156 | the loop keeps exactly the collapsed points, and each original point maps to the kept point its run of duplicates collapsed into |
| Polyline.DedupWithMap | utils.py:143-165 | dedup equals the deduplicated list; there is one map entry per input point; every entry is in range; every dedup index is hit; entry 0 is 0; in the closed drop, entries that named the dropped last point become 0 |
| Polyline.JumpCorrection | utils.py:125-132 | a step beyond +0.5 subtracts one unit, beyond -0.5 adds one, anything else adds nothing |
| Polyline.UnwrapCycle01 | utils.py:115-134 | the output has the input's length and first point, and each point is the input point shifted by the accumulated integer corrections |
| Polyline.NoJumpsNoOffset | utils.py:122-133 | with no step over 0.5 the accumulated corrections stay zero |
| Polyline.UnwrapIdentityWithoutJumps | utils.py:115-134 | unwrapping a path with no seam step returns it unchanged |
| Polyline.UnwrappedStepIsShort | utils.py:122-133 | after unwrapping, a step of at most 1.5 units is at most 0.5 units in u |
| Polyline.WrapPoint | utils.py:140 | both coordinates land in [-0.5, 0.5], each moved by an integer |
| Polyline.Wrap01 | utils.py:136-141 | one point per input, each in [-0.5, 0.5]², each shifted from its input by integers |
| Polyline.Wrap01Idempotent | utils.py:136-141 | wrap01 of a wrapped list changes nothing |
| Polyline.WrapUndoesUnwrap | utils.py:115-141 | away from exact half-unit ties, wrap01 of the unwrapped path equals wrap01 of the original path |
| Polyline.ChainLengths | utils.py:252 | one length per consecutive pair, each non-negative, and zero exactly when the two points coincide |
| Polyline.SegmentLengths | utils.py:246-253 | n-1 lengths (open) or n (closed), non-negative; they agree with the chain lengths, and the closed one ends with the closing segment |
| Polyline.SegmentLengthAt | utils.py:246-253 | segment i is the distance from point i to the next point, cyclically, and is zero exactly when the two coincide |
| Polyline.PrefixSumMonotone | utils.py:187-201 | running sums of non-negative lengths never decrease |
| Polyline.CvSquared | utils.py:255-265 | the squared coefficient of variation is non-negative |
| Polyline.EqualLengthsIsZeroCv | utils.py:255-265 | when the mean is above 1e-20, the spacing CV is zero exactly when all segment lengths are equal |
| Polyline.UnequalLengthsPositiveCv | utils.py:255-265 | when the mean is above 1e-20, unequal segment lengths give a strictly positive CV |
| Polyline.EvenSpacingIsZeroCv | utils.py:255-265 | a polyline with equal segment lengths and a mean above 1e-20 has zero CV |
| Polyline.MaxDisplacement | utils.py:267-276 | the result is at least the displacement of every movable point in the zipped range, and equals one of them unless it is 0 |
| Polyline.FirstReaching | utils.py:210-215 | returns the first segment whose end reaches the target, with no earlier segment reaching it |
| Polyline.FirstReachingIs | utils.py:210-215 | any index with the first-reaching property is the one the search returns |
| Polyline.SampleSpecAtStart | utils.py:206-226 | sampling at arc length 0 gives the first point |
| Polyline.SampleAt | utils.py:206-226 | the accumulator loop returns the sample the arc-length specification defines |
| Polyline.LengthsAndTotal | utils.py:187-201 | the loop builds exactly the segment lengths, and the total is their sum |
| Polyline.FloorMod | utils.py:208 | Python's float `%` with a positive divisor lies in [0, b) |
| Polyline.ClosedTargetStart | utils.py:229-232 | the first closed-loop target is arc length 0 |
| Polyline.SampleClosedLoop | utils.py:229-232 | one sample per point, point i at the closed target i·total/n |
| Polyline.SampleOpenPath | utils.py:233-242 | one sample per point; with preserve_ends the first and last points are kept exactly and the inner ones sit at i·total/(n-1) |
| Polyline.RedistributeEvenly | utils.py:167-244 | the input is returned unchanged when it is too short, too few points survive dedup, or the total length is at most 1e-20; otherwise the output is the n deduplicated points resampled at even arc-length targets; an open path with preserve_ends keeps both ends exactly, and the first point is kept in every case except an open path without preserve_ends shorter than 1e-12 |
| Curves.NearEndsAreClosed | utils.py:282-290 | fewer than 3 points is never closed; ends within 5e-4 of each other always are |
| Curves.DedupeClosed | utils.py:292-296 | the result is a prefix of the input that drops exactly one point, exactly when the points close and the ends lie within 1e-7 |
| Curves.StepsPerSegment | utils.py:318 | every segment gets at least 2 samples |
| Curves.BezierSegment | utils.py:310-321 | a segment gives `steps` samples, the first being its start control point |
| Curves.BezierSamples | utils.py:310-321 | k segments give k·steps samples |
| Curves.BezierInterpolates | utils.py:310-321 | sample i·steps is control point i, so the curve passes through every control point |
| Curves.CurveSamplesEnds | utils.py:303-325 | an open curve's samples start at the first control point and end at the last |
| Curves.ArcFractionStart | utils.py:326-332 | the first param is 0 |
| Curves.ArcFractionMonotone | utils.py:326-332 | params never decrease along the samples |
| Curves.ArcFractionBounds | utils.py:326-332 | every param lies in [0, 1] |
| Curves.ArcFractionEnd | utils.py:326-332 | with a positive total length the last param is 1 |
| Curves.ArcLengthParams | utils.py:326-332 | the loop produces one param per sample, each the arc-length fraction |
| Curves.BezierLoop | utils.py:308-323 | the sampling loop produces exactly the Bezier samples of all segments |
| Curves.SamplePolyline | utils.py:298-333 | fewer than 2 points returns a copy with max(1, n) zero params; otherwise the samples of the resolved curve with their arc-length fractions |
| Curves.LengthTargetStart | utils.py:351-353 | the first target length is 0 |
| Curves.LengthTargetEnd | utils.py:351-353 | for an open path the last target is the total length |
| Curves.TargetSegment | utils.py:354-357 | the segment search stops inside the list of segments |
| Curves.LengthSampleAtStart | utils.py:354-363 | resampling at length 0 gives the first point |
| Curves.LengthSampleAtEnd | utils.py:354-363 | resampling at the total length gives the last point |
| Curves.CumulativeLengths | utils.py:342-347 | cum holds the running sums of the segment lengths, and total is their sum |
| Curves.PointAtLength | utils.py:354-363 | the search loop returns the point the length-sampling specification defines |
| Curves.ResampleByLength | utils.py:335-365 | empty input gives []; otherwise max(count, 0) points: copies of the first point when the total length is zero, else the samples at evenly spaced target lengths |
| Curves.SampleAtTargets | utils.py:350-365 | one point per target j, each the sample at target j |
| Curves.OpenResampleStart | utils.py:335-365 | an open resample starts at the first source point |
| Curves.OpenResampleEnd | utils.py:335-365 | an open resample with count at least 2 ends at the last source point |
| Curves.ProjParam | utils.py:386 | the clamped projection parameter lies in [0, 1] |
| Curves.ClosestPointOnPolyline | utils.py:367-391 | empty input gives (0, p, 0); otherwise the index is in range and t in [0, 1], and the result is the first segment of least squared distance below 1e20 (or the first sample when none is) |
| Topology.InUnion | utils.py:17-42 | a key is in the union of the components exactly when it is in one of them |
| Topology.Explore | utils.py:28-41 | the explored set contains the root, lies in the graph and avoids what was visited before; every neighbour of a member is visited afterwards |
| Topology.ConnectedComponents | utils.py:17-42 | components are non-empty and pairwise disjoint, their union is every key that appears as a node or neighbour, and on a symmetric graph each is closed under neighbours |
| Topology.EKeySymmetric | utils.py:52 | an edge has the same key from either end |
| Topology.Reverse | utils.py:95 | the reversal has the same length with positions mirrored |
| Topology.EdgesReverse | utils.py:95 | a reversed walk runs along the same edges |
| Topology.WalkReverse | utils.py:95 | a reversed walk is a walk of a symmetric graph |
| Topology.Usable | utils.py:63 | the candidates are exactly the neighbours whose edge is unvisited and that are not the previous key |
| Topology.WalkForward | utils.py:58-70 | the walk starts at cur, follows graph edges, uses no edge visited before, records exactly its own edges, and stops only when every further edge is visited or leads back |
| Topology.EndpointPath | utils.py:72-84 | a path from a degree-1 key starts there, is open, and consumes exactly its own edges |
| Topology.SplicePath | utils.py:86-97 | the spliced path is a walk through (a, b) with only fresh edges, flagged closed exactly by the closure rule |
| Topology.EndpointPaths | utils.py:72-84 | every endpoint path is open and starts at a key of degree 1, and the visited set is exactly their edges |
| Topology.SplicedPaths | utils.py:86-97 | after the splice pass every edge of the graph is visited and every new path is flagged by the closure rule |
| Topology.ExtractPaths | utils.py:44-99 | every path is a walk of the graph; no two paths share an edge; together they cover every edge between distinct keys; rooted paths are open from degree-1 keys; spliced paths are closed exactly by the rule; and no path could have gone on: when a path is emitted, every edge at either of its ends has already been used by it or by an earlier path |
| Topology.AddNeighbourSpec | utils.py:418-419 | adding b to a's neighbour set adds exactly that pair and keeps the lists free of repeats |
| Topology.LinkSpec | utils.py:418-419 | linking two keys adds exactly the two directed pairs |
| Topology.BuildGraph | utils.py:401-419 | the graph is symmetric with repeat-free lists, holds every selected edge, holds only pairs some edge joins, and each node keeps the first point seen for its key |
| Topology.Keep | utils.py:494 | keeps exactly the neighbours inside the component |
| Topology.Restrict | operators/equalize.py:210 | the subgraph has the component as keys, and its pairs are the graph's pairs inside the component |
| Topology.RestrictClosed | operators/equalize.py:210 | on a closed component the subgraph keeps every neighbour list, its nodes are the component, and symmetry carries over |
| Topology.ClosedByInSubgraph | utils.py:487-488 | within a closed component, the degree rule flags a path the same in the subgraph as in the graph |
| Topology.PathPoints | utils.py:498 | one point per key, each the key's recorded first point |
| Topology.SelectedFromComponent | utils.py:492-499 | a path found in a component's subgraph, with more than two keys, is a result of build_all_selected_uv_paths in the whole graph |
| Topology.ComponentPaths | utils.py:491-499 | the component's subgraph has a full extraction (walks, edge-disjoint, covering every edge, rooted paths open from degree-1 keys, spliced paths flagged by the degree rule, each path maximal); the results are exactly its paths with more than two distinct keys, in order, each turned into its first points with the degree-rule flag |
| Topology.ComponentsPaths | utils.py:491-499 | for every component in turn there is a full extraction of its subgraph, and the results are the paths with more than two distinct keys of each component, components in order, each a valid result in the whole graph |
| Topology.BuildAllSelectedUvPaths | utils.py:396-502 | no edges give no paths; the graph is symmetric, holds every selected edge and only pairs some edge joins; its components are non-empty, pairwise disjoint, closed under neighbours and together hold every key; each component has a full extraction of its subgraph, and the results are exactly the extracted paths with more than two distinct keys, component by component and in order, each a valid result |
| MeshPass.Mesh.constructor | utils.py:101-113 | the table starts valid, holding the given UVs, vertices and vertex-to-loop links |
| MeshPass.Mesh.GatherWelded | utils.py:101-113 | the group contains the loop itself and exactly the loops on its vertex whose weld key equals its own |
| MeshPass.Corners | operators/equalize.py:182-183 | two recorded loops per selected edge |
| MeshPass.EdgePoints | operators/equalize.py:172-188 | one UV edge per selected edge, from the loop's UV to its next loop's UV |
| MeshPass.BuildLoopTable | operators/equalize.py:165-190 | every key lists the selected corners with that key, in order, and its first loop has the key's first point |
| MeshPass.GraphKeysHaveLoops | operators/equalize.py:200-207 | every key of the graph has a recorded loop whose UV is the key's first point |
| MeshPass.FirstUvs | operators/equalize.py:200-207 | one UV per key |
| MeshPass.ReadPoints | operators/equalize.py:200-207 | the read fails exactly when some key has no loop, and otherwise gives each key's first loop UV |
| MeshPass.FirstPositions | operators/match3d.py:125-131 | one 3D position per key |
| MeshPass.ReadPositions | operators/match3d.py:125-131 | the read fails exactly when some key has no loop, and otherwise gives the vertex position of each key's first loop |
| MeshPass.NeedUnwrap | operators/equalize.py:236-246 | the answer is exactly whether the points cross the seam: a closed path of at least 3 points with a cyclic step over 0.5 on either axis |
| MeshPass.NoSeamStepNoUnwrap | operators/equalize.py:280 | when no step crosses the seam, the unwrapped points are the points themselves |
| MeshPass.ByKeyAsWritten | operators/equalize.py:296 | the indexing succeeds exactly when every map entry is in range, and then gives new_pts[idx_map[i]] for each key |
| MeshPass.ByKey | operators/equalize.py:296 | every key gets one of the new points, and exactly the as-written value whenever that indexing is in range |
| MeshPass.StillPointsMoveNoKey | operators/equalize.py:302-308 | when no movable point changes weld key, the moved set is empty |
| MeshPass.CollectMoved | operators/equalize.py:302-308 | the loop adds exactly the weld keys of the movable points whose weld key changes |
| MeshPass.WriteGroup | operators/equalize.py:315-319 | every loop of the group is applied; each applied loop shares a vertex with a recorded loop of a movable key, had that loop's weld key before the pass (or the UV an earlier key wrote to it), and now holds the key's new UV; every other loop keeps its UV |
| MeshPass.WriteLoop | operators/equalize.py:315-319 | the loop is applied, and the applied set stays closed under welding: every loop that shared a vertex and a weld key with an applied loop before the pass is applied too |
| MeshPass.WriteKey | operators/equalize.py:315-319 | every recorded loop of the movable key is applied, and so is every loop welded before the pass to an applied loop; each applied loop shares a vertex with a recorded loop of a movable key, carried its weld key, and holds that key's new UV; every other loop keeps its UV |
| MeshPass.GroupKeepsWeldClosed | utils.py:101-113 | adding a gathered welded group keeps the applied set closed under welding, because a loop not yet applied still has its UV from before the pass |
| MeshPass.WeldedPartnersWritten | operators/equalize.py:310-319 | after a covered, weld-closed write, every loop that shared a vertex and a weld key before the pass with a recorded loop of a movable key is written |
| MeshPass.WriteBack | operators/equalize.py:310-319 | every loop of every movable key is covered, and so is every loop welded to one of them before the pass; each written loop, written once, shares a vertex with a recorded loop of a movable key, had that loop's weld key before the pass (or the UV an earlier key wrote to that loop), and holds the key's new UV; all other loops keep their UVs |
| MeshPass.ChordPoints | operators/equalize.py:490-496 | one point per fraction; fraction 0 gives the first end and fraction 1 the last |
| MeshPass.EvenFractions | operators/equalize.py:490-496 | n fractions from exactly 0 to exactly 1 |
| MeshPass.EvenChordSteps | operators/equalize.py:490-496 | consecutive chord points are the same step (last - first)/(n-1) apart |
| Equalize.ResolveClosed | operators/equalize.py:216-223 | OPEN gives open and CLOSED gives closed; AUTO gives closed exactly for at least 3 keys all of subgraph degree 2 |
| Equalize.AutoAgreesWithDegreeWalk | operators/equalize.py:216-223 | for a walked path, AUTO agrees with the walk's degree flag |
| Equalize.Pinned | operators/equalize.py:248-255 | a key is pinned exactly when its degree is not 2, or it is an end of an open path |
| Equalize.MovableMask | operators/equalize.py:248-256 | key i is movable exactly when its degree is 2 and the path is closed or the key is not an end |
| Equalize.EndsAndJunctionsPinned | operators/equalize.py:248-256 | the ends of an open path and every junction are not movable |
| Equalize.ClosedRingAllMovable | operators/equalize.py:248-256 | on a closed path of degree-2 keys every key is movable |
| Equalize.AtLeastOne | operators/equalize.py:259 | max(1, n): at least one and at least n, and n itself when positive |
| Equalize.IterationBudget | operators/equalize.py:258-270 | COUNT runs max(1, iter_count) passes without early stop; AUTO runs at most max(1, auto_max_iter) with early stop; repeat_closed_only gives an open path exactly one pass |
| Equalize.EpsPos | operators/equalize.py:272 | eps_pos is the larger of the convergence epsilon and half the weld tolerance |
| Equalize.Processed | operators/equalize.py:280 | processing keeps length and first point, and without unwrap is the identity |
| Equalize.Respace | operators/equalize.py:279-296 | success exactly when enough points survive dedup (3 closed, 2 open); then the new points are the even redistribution of the deduplicated processed points, wrapped back after an unwrap, and each key gets the new point of its dedup index; without unwrap the first point is kept, with it every point lies in [-0.5, 0.5]² |
| Equalize.MeasurePass | operators/equalize.py:279-299 | too few exactly when not enough points survive dedup; otherwise the respaced points of the UVs read, dmax bounding every movable key's displacement and attained by one of them unless 0, and cvWithin exactly when the spacing CV of the new points is within tolerance |
| Equalize.EqualizePass | operators/equalize.py:277-319 | a pass fails to read exactly when a key has no loop and finds too few points exactly when dedup of the first UVs leaves too few, and both leave the UVs alone; otherwise it measures the first UVs of the keys (respacing, dmax, spacing CV) and writes every movable key's new UV to its recorded loops and to every loop welded to a written one before the pass, changing no other loop |
| Equalize.EuclidVersusEps | utils.py:153 | for Euclidean length, a distance is at most eps exactly when its square is at most eps² |
| Equalize.ShrinkingLoop | operators/equalize.py:282-296 | the counterexample loop has five points |
| Equalize.ShrinkingLoopIsAPath | operators/equalize.py:142-159 | its five points have five different graph keys at weld tolerance 1e-8 and cross no seam |
| Equalize.ClosedRededupIndexError | operators/equalize.py:282-296 | dedup_with_map keeps 4 points, redistribute_evenly deduplicates them to 3, and then every index map that hits 3 makes `new_pts[idx_map[i]]` fail |
| Equalize.ShrinkingLoopRededup | utils.py:143-181 | from the example's distances: the first dedup keeps 4 points and the second keeps 3 |
| Equalize.ComposeWrites | operators/equalize.py:276-319 | after a pass, every loop outside the loops written so far keeps its original UV, and every written loop shares a vertex with a recorded loop of a movable key |
| Equalize.PassChainStep | operators/equalize.py:276-319 | a pass from the UVs the chain left extends the chain of passes by one |
| Equalize.MovedByPassesStep | operators/equalize.py:302-308 | a pass that moved points adds exactly the weld keys it moved to the set moved so far |
| Equalize.ChainPass | operators/equalize.py:276-319 | a pass that writes nothing does so only when the UVs cannot be read or respaced, reports too few points exactly when they could be read, and leaves UVs, chain and moved set as they were; one that moves points extends the chain by itself and its UVs, and the moved set by its moved weld keys; in both cases every loop changed since the first pass is a welded loop of a movable key |
| Equalize.IteratePasses | operators/equalize.py:275-323 | the passes form a chain from the original UVs to the final ones, each measured on the UVs the previous one left; moved is the union of the weld keys each moved; between 1 and max_iter passes are counted, fewer only when early stop is on and the last pass converged, and no earlier pass converged; fewer than max_iter passes with max_iter counted happens only when the final UVs can no longer be read or respaced, and tooFew holds exactly when that stop was for too few points |
| Equalize.RedistributedStart | utils.py:167-244 | an even redistribution of at least two points starts at the first of them |
| Equalize.EqualizePath | operators/equalize.py:216-335 | only welded loops of movable keys change; a path of at most 2 distinct keys is skipped; an unreadable path counts only towards the total; otherwise the passes form a chain from the UVs read, unwrapped exactly when the first UVs cross the seam of a closed path, the moved count is the union of the weld keys each pass moved, the iteration stops as the budget allows, a stop before max_iter passes that did not converge happens only when the final UVs leave too few dedup points, the path is counted as closed or open, and skipped grows by one exactly for that stop |
| Equalize.StraightPoints | operators/equalize.py:490-496 | one point per dedup point, with the first and last kept |
| Equalize.StraightPointsEven | operators/equalize.py:490-496 | the straightened points are evenly spaced on the chord |
| Equalize.StraightenPath | operators/equalize.py:463-523 | trivial paths are skipped; degree-closed paths count as closed and skipped and stay untouched; an unreadable path is left alone; fewer than 2 dedup points is skipped; otherwise every movable key gets the even chord point of its dedup index, written to its recorded loops and to every loop welded to a written one before the pass, moved is exactly the weld keys this changes, and the path is counted open |
| Equalize.PathStaysNearSelection | operators/equalize.py:310-319 | writing a path keeps every changed loop on a vertex of a selected corner |
| Equalize.RunObject | operators/equalize.py:147-335 | only loops sharing a vertex with a selected corner change; an empty selection changes nothing; processed and skipped never decrease |
| Match3d.AllMovable | operators/match3d.py:255-262 | every key of a match3d path is written |
| Match3d.ResolveClosed3d | operators/match3d.py:190-201 | CLOSED is closed; a degree-closed path is closed under every setting, OPEN included; otherwise OPEN is open |
| Match3d.ClosedWheneverEqualizeCloses | operators/match3d.py:190-201 | match3d closes every path Equalize closes, and under AUTO with an open walk they agree |
| Match3d.Clamp01 | operators/match3d.py:173 | the clamp lies in [0, 1] and leaves values already there alone |
| Match3d.ResampleTarget | operators/match3d.py:153-174 | a closed target lies in [0, total); an open target is at most total - 1e-12 and not negative when total ≥ 1e-12 |
| Match3d.ResampleTargetOfFraction | operators/match3d.py:163-174 | for a fraction in [0, 1]: closed targets are f·total (and 0 at f = 1); open targets are min(f·total, total - 1e-12) |
| Match3d.ResampledKeepsCount | operators/match3d.py:138-175 | one fraction per point gives one point per point |
| Match3d.ResampledStart | operators/match3d.py:138-175 | fraction 0 resamples to the first point |
| Match3d.ResamplePoly | operators/match3d.py:138-175 | the loop returns exactly the resampled points: [] for [], a copy for too few points or zero length, else one arc-length sample per fraction |
| Match3d.SampleFractions | operators/match3d.py:171-175 | one sample per fraction, each at its clamped target |
| Match3d.IndexOf | operators/match3d.py:220-222 | the first index holding j, or the length when j is absent |
| Match3d.Aligned | operators/match3d.py:217-224 | one 3D point per dedup index |
| Match3d.AlignedFromOwnKey | operators/match3d.py:217-224 | the 3D point for dedup index j comes from the first original index mapping to j |
| Match3d.AlignPoints | operators/match3d.py:217-224 | the search loop builds exactly the aligned points |
| Match3d.RatioFractionsOf | operators/match3d.py:239-244 | the loop builds the fractions of the 3D prefix lengths |
| Match3d.FractionIsShare | operators/match3d.py:239-244 | fraction i is the share of the 3D length up to point i |
| Match3d.RatioFractionsStep | operators/match3d.py:239-244 | consecutive fractions differ by the segment's share of the 3D length |
| Match3d.RatioFractionsOrdered | operators/match3d.py:239-244 | fractions start at 0, never decrease and lie in [0, 1] |
| Match3d.RatioPoints | operators/match3d.py:209-250 | too few points exactly when dedup leaves fewer than 3 (closed) or 2 (open); otherwise deduplicated, aligned and resampled at the 3D fractions |
| Match3d.ResampleAtRatios | operators/match3d.py:217-250 | the result carries the given dedup and map, its fractions are the 3D ratios, and its points are resampled at them |
| Match3d.StraightRatioPoints | operators/match3d.py:452-473 | too few exactly when dedup leaves fewer than 2; otherwise the chord points at the 3D fractions |
| Match3d.StraightFollows3d | operators/match3d.py:466-471 | point j sits on the chord at the 3D length share up to j, and the ends keep their positions |
| Match3d.ResampleFollows3d | operators/match3d.py:239-248 | point j is the arc-length sample at the 3D length share up to j, and the first point is kept |
| Match3d.ApplyRatio | operators/match3d.py:250-262 | moved is exactly the set of weld keys that change; every key's new UV is written to its recorded loops and to every loop welded to a written one before the pass, each written loop sharing a vertex with a recorded loop of the path, carrying its weld key and now holding one of the new points; all other loops keep their UVs |
| Match3d.RatioPath | operators/match3d.py:209-268 | a path is too short exactly when dedup leaves too few points; a path whose 3D length is at most 1e-20 is skipped unwritten; otherwise it is resampled at the 3D ratios, its moved weld keys are counted and it is tallied |
| Match3d.Match3dPath | operators/match3d.py:184-268 | trivial paths are skipped; a failed read cancels the operator without writes; otherwise the path is resolved, deduplicated, aligned and resampled at its 3D ratios and tallied |
| Match3d.CoordTolerance | operators/match3d.py:433-435 | the closure tolerance is at least 1e-6 and at least ten weld tolerances |
| Match3d.StraightClosedCovers | operators/match3d.py:424-441 | a degree-closed path, or one whose first and last UVs coincide, is treated as closed |
| Match3d.Match3dStraightPath | operators/match3d.py:413-486 | trivial or unreadable paths are skipped; closed ones count as closed and skipped and stay untouched; otherwise the dedup points move onto the chord at their 3D ratios and the path is tallied open |
| Match3d.RunRatioObject | operators/match3d.py:43-288 | only loops sharing a vertex with a selected corner change; an empty selection changes nothing; processed and skipped never decrease |
| Spline.InsertAt | operators/spline.py:905 | the list grows by one with p at k, the earlier points unchanged and the later ones shifted up |
| Spline.RemoveAt | operators/spline.py:831 | the list shrinks by one, the earlier points unchanged and the later ones shifted down |
| Spline.RemoveInserted | operators/spline.py:831-905 | removing an inserted point restores the list |
| Spline.InsertShift | operators/spline.py:906 | selected indices at or above the insertion point move up by one, the others stay |
| Spline.DeleteSelection | operators/spline.py:835 | pidx leaves the selection, indices below it stay, indices above it move down by one |
| Spline.DeleteSelectionAsWritten | operators/spline.py:835 | the written filter: as intended, except that index 0 is lost even when it is below pidx |
| Spline.DeleteUndoesInsertShift | operators/spline.py:835-906 | deleting at k undoes the insertion shift at k |
| Spline.AsWrittenLosesOnlyFirst | operators/spline.py:835 | the written filter differs from the intended one only by losing index 0 when pidx > 0 |
| Spline.DeleteDropsFirstPoint | operators/spline.py:1049 | selection {0, 2} with point 2 deleted becomes {} as written where {0} is intended |
| Spline.ClampIndex | operators/spline.py:883 | the clamped curve index is in range and leaves an in-range index alone |
| Spline.NearestSegment | operators/spline.py:889-904 | the chosen segment is in range and is the first of least squared distance to the mouse |
| Spline.PairEnd | operators/spline.py:150-156 | the far end of a segment is a valid sample index |
| Spline.FractionTarget | operators/spline.py:162-163 | the target lies in [0, total], and below total on a closed curve |
| Spline.FractionTargetBounds | operators/spline.py:162-163 | a fraction in [0, 1] (below 1 when closed) gives a target in [0, total] |
| Spline.PointFromOnSegment | operators/spline.py:164-172 | the point found lies on one of the curve's segments |
| Spline.FractionPointOnCurve | operators/spline.py:161-172 | every fraction maps to a point on the sampled curve |
| Spline.FractionPointAtStart | operators/spline.py:161-172 | fraction 0 is the first sample |
| Spline.PointAtFraction | operators/spline.py:161-172 | the search loop returns the point the fraction specification defines |
| Spline.DragTargetOfEntry | operators/spline.py:703-706 | a dragged point moves to its base plus the offset |
| Spline.DragTargetUnlisted | operators/spline.py:703-706 | a point not in the drag list keeps its position |
| Spline.Below | operators/spline.py:107 | keeps exactly the selected indices below count |
| Spline.CurveData.constructor | operators/spline.py:26-37 | a new curve has its path, closure, loops, original UVs and fractions, no control points, no selection and no active point |
| Spline.CurveData.ResampleFromOriginal | operators/spline.py:105-107 | the curve gets count points resampled from its original path, and selected indices of count or more are dropped |
| Spline.CurveData.ResampleFromCurrent | operators/spline.py:111-115 | with two or more samples the curve is resampled along its drawn curve and the selection trimmed; otherwise it is unchanged |
| Spline.CurveData.RemovePoint | operators/spline.py:830-835 | an in-range pidx is removed and an out-of-range one ignored; the selection follows the corrected deletion (Spline.DeleteSelection), not the written filter |
| Spline.CurveData.InsertNearest | operators/spline.py:885-913 | fewer than 2 points appends the mouse point; otherwise it goes after the nearest segment; the new point is the only selected one and active |
| Spline.AnyClosed | operators/spline.py:45 | true exactly when some curve is closed |
| Spline.MultiSplineState.constructor | operators/spline.py:39-43 | no active curve and zero global points |
| Spline.MultiSplineState.AllClosedMin | operators/spline.py:44-45 | 3 when any curve is closed, 2 otherwise |
| Spline.MultiSplineState.ClampGlobal | operators/spline.py:101-102 | the count lies in [all_closed_min, 30], and an in-range count is unchanged |
| Spline.MultiSplineState.Ctrls | operators/spline.py:93 | the control points of every curve, in order |
| Spline.MultiSplineState.ResampleAllFromOriginal | operators/spline.py:104-108 | every curve has exactly count control points from its original path, every selected index is below count, and global_points is count |
| Spline.MultiSplineState.ResampleAllFromCurrent | operators/spline.py:110-116 | every curve is resampled along its drawn curve (or left as it was with too few samples), and global_points is count |
| Spline.MultiSplineState.ClearSelection | operators/spline.py:647-649 | every curve ends with no selection and no active point, its points untouched |
| Spline.MultiSplineState.SetActiveSingle | operators/spline.py:651-657 | curve cidx ends with selection {pidx} and active pidx; every other curve with none; control points unchanged |
| Spline.MultiSplineState.ToggleSelect | operators/spline.py:659-668 | pidx's membership flips and nothing else in the selection changes; an added point becomes active; removing the active point makes another selected point or -1 active; cidx becomes the active curve |
| Spline.MultiSplineState.SmallestSelected | operators/spline.py:838 | the smallest selected index, or -1 for none |
| Spline.MultiSplineState.DeleteWithActive | operators/spline.py:826-841 | the point goes and the selection follows the corrected deletion (Spline.DeleteSelection); an active pidx becomes the smallest selected index or -1; a higher active index drops by one, a lower one stays; cidx becomes the active curve |
| Spline.MultiSplineState.DeleteKey | operators/spline.py:1040-1050 | the same corrected deletion, without changing the active index or the active curve |
| Spline.MultiSplineState.InsertPoint | operators/spline.py:882-918 | the clamped curve grows by the mouse point at best_i+1 (or appended), which becomes its only selection and active point; every other curve is cleared |
| Spline.MultiSplineState.SelectedSnapshot | operators/spline.py:670-676 | the snapshot lists, in curve and index order, every selected in-range point with its position |
| Spline.MultiSplineState.SnapshotCurve | operators/spline.py:673-675 | one curve's selected points are appended in index order after the earlier curves' entries |
| Spline.MultiSplineState.DragSelection | operators/spline.py:678-697 | the snapshot lists the selected points; when nothing was selected and a nearest point is given, that point becomes the only selection and the active one first; otherwise the selection and active curve stay; no control point moves |
| Spline.MultiSplineState.EmptySnapshot | operators/spline.py:670-697 | a snapshot of the selection is empty exactly when no selected index names a control point |
| Spline.MultiSplineState.MoveSnapshot | operators/spline.py:702-706 | every listed point becomes base + delta and every other point stays; counts and selections do not change |
| Spline.MultiSplineState.RestoreFrom | operators/spline.py:96-98 | each curve takes its backup copy as far as the zip goes; selections stay |
| Spline.MultiSplineState.SavedCount | operators/spline.py:610-620 | nothing without curves; otherwise the common count when all agree, else the active curve's count, else the first curve's |
| Spline.SplineSession.constructor | operators/spline.py:411-559 | the session starts valid with no snapshot, an empty welded backup and no drag, remembering the starting UVs |
| Spline.SplineSession.WriteOriginal | operators/spline.py:132-148 | a curve with too few points or samples gets its loops' original UVs back, and no other loop changes |
| Spline.SplineSession.WriteWelded | operators/spline.py:173-188 | every loop welded to l takes the new point and no other loop changes; a loop enters the backup only on its first write, with its UV from when the editor opened |
| Spline.SplineSession.WriteOne | operators/spline.py:181-188 | one loop is written, and backed up only if not backed up already |
| Spline.SplineSession.PreviewCurve | operators/spline.py:132-190 | one curve's preview keeps the backup faithful and only grows it |
| Spline.SplineSession.ApplyPreview | operators/spline.py:118-196 | the preview of every curve keeps the backup faithful and only grows it |
| Spline.SplineSession.SnapshotCtrl | operators/spline.py:92-93 | the snapshot is a copy of every curve's control points |
| Spline.SplineSession.RestoreCtrl | operators/spline.py:95-99 | with a snapshot every curve gets its copy back; without one nothing changes |
| Spline.SplineSession.StartDrag | operators/spline.py:678-697 | the control points are backed up and unchanged; the drag lists the selected points, after making the nearest point the only selection when nothing was selected; a drag starts exactly when something is listed, from the start point |
| Spline.SplineSession.ApplyDrag | operators/spline.py:699-707 | every listed point moves to base plus the mouse offset, every other point stays, and the backup stays faithful |
| Spline.SplineSession.Cancel | operators/spline.py:569-608 | the backup is emptied and every loop has exactly the UV it had when the editor opened |

## Left out

- Reading and writing through bmesh is replaced by the `Mesh` table: handle to UV, handle to vertex, vertex to handles, vertex positions. Hidden faces, the UV layer and `update_edit_mesh` are not modelled.
- Drawing (GPU, blf, shaders), `view2d` pixel projection and pixel picking are left out. `find_nearest_control` and the pixel-space curve pick for insert are foreign calls; their answers are parameters.
- The modal event dispatch of the spline editor is left out. This covers ESC, Enter, TAB, RMB, wheel, R, box select, H and G, and the click-select branch that keeps the selection and sets the active point. Only the edits it applies are modelled.
- `invoke` of the spline editor is not modelled: the assignment of loops to curves and its filtering. The session constructor takes the curves it builds.
- The operators' loop over several objects, the selection-sync and edit-mode checks, and the report messages are left out. `RunObject` and `RunRatioObject` handle one mesh, and the saved count is returned by `SavedCount` rather than written to the window manager.
- Square roots and IEEE floating point are left out: lengths are a `Metric` parameter, and coordinates are exact reals. No numeric convergence or size of the coefficient of variation is claimed.
- Python set and dict iteration order is left out. Neighbour lists are ordered sequences; where the source takes "any" element (`next(iter(sel))`, the order of the welded backup), the model makes a nondeterministic choice.
- The read_v3 failure in the straight match3d variant is left out: it cannot happen once the UV read succeeded, since both read the same loop lists.
- Panels, preferences, properties, translations and registration are left out.
- Topology.ConnectedComponents: states disjointness, coverage and closure under neighbours, but not that each component is connected.
- Spline.SplineSession.ApplyPreview: states only the backup invariant and the size of the UV table. It does not state each loop's final UV, because welded groups of different loops can overlap and a later write wins.
- Spline.SplineSession.PreviewCurve: states the same backup invariant only, for the same reason.
- Spline.SplineSession.WriteWelded: groups loops with the integer weld key `(round(x·s), round(y·s))`. The preview uses `_uv_key`, `round(x/tol)·tol` (utils.py:393-394). The two groupings coincide when 1/tol is a whole number, as for the default 1e-6, but the model does not prove this.
- Equalize.RunObject: states the frame (only loops near the selection change) and monotone counters, not the sum of the per-path statistics.
- Match3d.RunRatioObject: states the same frame and counter facts as `RunObject`, not the per-path sums.
- Spline.MultiSplineState.ResampleAllFromCurrent: gives no count bound for a curve whose drawn curve has fewer than two samples, because the source leaves such a curve alone.

## Findings

| source | as written | input that shows it | evidently intended | confidence | as-written member | corrected member |
|---|---|---|---|---|---|---|
| operators/spline.py:835 | after a point is deleted, the selection filter `(i-1) >= 0` drops index 0 even when the deleted point is after it (the same filter is at line 1049) | selection {0, 2}, delete point 2: the selection becomes {} | indices below the deleted point stay selected, so the selection becomes {0} | high, not executed | Spline.DeleteDropsFirstPoint | Spline.DeleteSelection |
| operators/equalize.py:296 | `new_pts[idx_map[i]]` indexes the output of `redistribute_evenly`, which deduplicates the closed loop a second time and can return fewer points than `dedup_with_map` kept | a closed loop of five UVs at weld tolerance 1e-8: (1.5e-9, 1.5e-9), (0.25, 0), (0.5, 0), (1e-9, 1.5e-9), (2.1e-9, 9e-10). when the walk visits the keys in this order, dedup_with_map keeps 4 points and the map names index 3; the second dedup keeps 3, so the lookup raises IndexError (in the reverse order the first dedup already keeps 3 points and nothing fails) | every key gets a new point; a key whose point was dropped as closing on the first takes the first new point, as dedup_with_map itself does | medium, not executed | Equalize.ClosedRededupIndexError | MeshPass.ByKey |
