/**
 * The undirected key graph of the selected UV edges: connected components
 * (utils.connected_components_keys) and the decomposition of a component
 * into ordered paths by an edge-consuming walk
 * (utils.extract_paths_from_component and its copy inside
 * build_all_selected_uv_paths).
 *
 * Python keeps neighbours in sets and components in sets, so the order in
 * which a loop visits them is unspecified. Adjacency is modelled as an
 * ordered sequence (the walk takes the first usable neighbour), and every
 * loop over a set picks its next element with `:|`, so each property below
 * holds whatever order the sets are visited in.
 */
module Topology {
  import opened Geometry
  import opened Polyline
  import opened Wrappers

  /** `dict[key, set[key]]`: each key's neighbours, in the order the walk tries them. */
  type Graph = map<Key, seq<Key>>

  /** `graph.get(k, ())`. */
  function Neighbours(g: Graph, k: Key): seq<Key> {
    if k in g then g[k] else []
  }

  /** `len(subgraph.get(k, set()))`. */
  function Degree(g: Graph, k: Key): nat {
    |Neighbours(g, k)|
  }

  /** Neighbour lists are sets: no key is listed twice. */
  ghost predicate SetLike(g: Graph) {
    forall k, i, j :: k in g && 0 <= i < j < |g[k]| ==> g[k][i] != g[k][j]
  }

  /** Every edge is stored in both directions, as the graph builders do. */
  ghost predicate Symmetric(g: Graph) {
    forall k, n :: n in Neighbours(g, k) ==> k in Neighbours(g, n)
  }

  /** Every key that appears, as a dictionary key or as a neighbour. */
  function Nodes(g: Graph): set<Key> {
    g.Keys + set k, n | k in g && n in g[k] :: n
  }

  /** No neighbour of a member lies outside the set. */
  ghost predicate ClosedUnder(g: Graph, c: set<Key>) {
    forall k, n :: k in c && n in Neighbours(g, k) ==> n in c
  }

  /** The union of a list of key sets. */
  function Union(s: seq<set<Key>>): set<Key> {
    if s == [] then {} else Union(s[..|s| - 1]) + s[|s| - 1]
  }

  lemma UnionAppend(s: seq<set<Key>>, c: set<Key>)
    ensures Union(s + [c]) == Union(s) + c
  {
    assert (s + [c])[..|s|] == s;
  }

  lemma {:induction false} InUnion(s: seq<set<Key>>, k: Key)
    ensures k in Union(s) <==> exists i :: 0 <= i < |s| && k in s[i]
  {
    if s != [] {
      var p := s[..|s| - 1];
      InUnion(p, k);
      if k in Union(p) {
        var i :| 0 <= i < |p| && k in p[i];
        assert k in s[i];
      }
    }
  }

  // ---------------------------------------------------------------------
  // connected_components_keys

  /**
   * The depth-first search of one component: pop a key, record it, push
   * every neighbour not yet visited. It returns the component and the
   * visited set grown by exactly that component, and every neighbour of a
   * recorded key has been visited.
   */
  method Explore(g: Graph, root: Key, visited0: set<Key>) returns (comp: set<Key>, visited: set<Key>)
    requires root in Nodes(g) && root !in visited0 && visited0 <= Nodes(g)
    ensures root in comp && comp <= Nodes(g)
    ensures comp !! visited0 && visited == visited0 + comp
    ensures forall k, n :: k in comp && n in Neighbours(g, k) ==> n in visited
  {
    var stack := [root];
    comp := {};
    visited := visited0 + {root};
    while stack != []
      invariant visited == visited0 + comp + (set x | x in stack)
      invariant visited <= Nodes(g)
      invariant comp !! visited0 && (set x | x in stack) !! visited0
      invariant root in comp + (set x | x in stack)
      invariant forall k, n :: k in comp && n in Neighbours(g, k) ==> n in visited
      decreases Nodes(g) - visited, |stack|
    {
      ghost var before := visited;
      var cur := stack[|stack| - 1];
      PopElements(stack, stack[..|stack| - 1], cur);
      stack := stack[..|stack| - 1];
      ghost var rest := set x | x in stack;
      assert before == visited0 + (comp + {cur}) + rest;
      comp := comp + {cur};
      NeighboursAreNodes(g, cur);
      visited, stack := PushUnvisited(Neighbours(g, cur), visited, stack);
      assert (set x | x in stack) == rest + (visited - before);
    }
  }

  /** The keys on a stack are those below its top and the top itself. */
  lemma PopElements(full: seq<Key>, rest: seq<Key>, top: Key)
    requires full != [] && rest == full[..|full| - 1] && top == full[|full| - 1]
    ensures (set x | x in full) == (set x | x in rest) + {top}
  {
    assert full == rest + [top];
  }

  lemma NeighboursAreNodes(g: Graph, k: Key)
    ensures forall n :: n in Neighbours(g, k) ==> n in Nodes(g)
  {
    forall n | n in Neighbours(g, k)
      ensures n in Nodes(g)
    {
      assert k in g && n in g[k];
    }
  }

  /** The inner loop of the search: visit and push each neighbour not yet visited. */
  method PushUnvisited(nbrs: seq<Key>, visited0: set<Key>, stack0: seq<Key>) returns (visited: set<Key>, stack: seq<Key>)
    ensures visited == visited0 + (set x | x in nbrs)
    ensures (set x | x in stack) == (set x | x in stack0) + (visited - visited0)
    ensures visited == visited0 ==> stack == stack0
  {
    visited, stack := visited0, stack0;
    for i := 0 to |nbrs|
      invariant visited == visited0 + (set x | x in nbrs[..i])
      invariant (set x | x in stack) == (set x | x in stack0) + (visited - visited0)
      invariant visited == visited0 ==> stack == stack0
    {
      assert nbrs[..i + 1] == nbrs[..i] + [nbrs[i]];
      if nbrs[i] !in visited {
        assert (set x | x in stack + [nbrs[i]]) == (set x | x in stack) + {nbrs[i]};
        visited := visited + {nbrs[i]};
        stack := stack + [nbrs[i]];
      }
    }
    assert nbrs[..|nbrs|] == nbrs;
  }

  lemma SubsetOfUnion(s: seq<set<Key>>, i: nat)
    requires i < |s|
    ensures s[i] <= Union(s)
  {
    forall k | k in s[i]
      ensures k in Union(s)
    {
      InUnion(s, k);
    }
  }

  lemma DisjointFromEarlier(comps: seq<set<Key>>, comp: set<Key>)
    requires comp !! Union(comps)
    ensures forall i :: 0 <= i < |comps| ==> comps[i] !! comp
  {
    forall i | 0 <= i < |comps|
      ensures comps[i] !! comp
    {
      SubsetOfUnion(comps, i);
    }
  }

  /**
   * On a symmetric graph, a search started outside the earlier components
   * cannot have stopped at one of them: its component is closed too.
   */
  lemma NewComponentClosed(g: Graph, comps: seq<set<Key>>, earlier: set<Key>, comp: set<Key>)
    requires Symmetric(g)
    requires forall i :: 0 <= i < |comps| ==> ClosedUnder(g, comps[i])
    requires earlier == Union(comps) && comp !! earlier
    requires forall k, n :: k in comp && n in Neighbours(g, k) ==> n in earlier || n in comp
    ensures ClosedUnder(g, comp)
  {
    forall k, n | k in comp && n in Neighbours(g, k)
      ensures n in comp
    {
      NotInEarlier(g, comps, k, n);
    }
  }

  lemma NotInEarlier(g: Graph, comps: seq<set<Key>>, k: Key, n: Key)
    requires Symmetric(g)
    requires forall i :: 0 <= i < |comps| ==> ClosedUnder(g, comps[i])
    requires k !in Union(comps) && n in Neighbours(g, k)
    ensures n !in Union(comps)
  {
    assert k in Neighbours(g, n);
    forall i | 0 <= i < |comps|
      ensures n !in comps[i]
    {
      SubsetOfUnion(comps, i);
      assert k !in comps[i];
    }
    InUnion(comps, n);
  }

  /**
   * utils.connected_components_keys (and `_components` inside
   * build_all_selected_uv_paths): non-empty, pairwise disjoint key sets
   * covering every node; on a symmetric graph each one is closed under the
   * neighbour relation, so no edge joins two of them.
   */
  method ConnectedComponents(g: Graph) returns (comps: seq<set<Key>>)
    ensures forall i :: 0 <= i < |comps| ==> comps[i] != {}
    ensures forall i, j :: 0 <= i < j < |comps| ==> comps[i] !! comps[j]
    ensures Union(comps) == Nodes(g)
    ensures Symmetric(g) ==> forall i :: 0 <= i < |comps| ==> ClosedUnder(g, comps[i])
  {
    var nodes := Nodes(g);
    var todo := nodes;
    var visited: set<Key> := {};
    comps := [];
    while todo != {}
      invariant todo <= nodes && visited <= nodes
      invariant nodes - todo <= visited
      invariant visited == Union(comps)
      invariant forall i :: 0 <= i < |comps| ==> comps[i] != {}
      invariant forall i, j :: 0 <= i < j < |comps| ==> comps[i] !! comps[j]
      invariant forall i, k, n :: 0 <= i < |comps| && k in comps[i] && n in Neighbours(g, k) ==> n in visited
      invariant Symmetric(g) ==> forall i :: 0 <= i < |comps| ==> ClosedUnder(g, comps[i])
      decreases |todo|
    {
      var n :| n in todo;
      todo := todo - {n};
      if n !in visited {
        comps, visited := AddComponent(g, comps, visited, n);
      }
    }
  }

  /** One new component of connected_components_keys: the search from an unvisited key `n`. */
  method AddComponent(g: Graph, comps: seq<set<Key>>, visited: set<Key>, n: Key)
    returns (comps': seq<set<Key>>, visited': set<Key>)
    requires n in Nodes(g) && n !in visited && visited <= Nodes(g)
    requires visited == Union(comps)
    requires forall i :: 0 <= i < |comps| ==> comps[i] != {}
    requires forall i, j :: 0 <= i < j < |comps| ==> comps[i] !! comps[j]
    requires forall i, k, m :: 0 <= i < |comps| && k in comps[i] && m in Neighbours(g, k) ==> m in visited
    requires Symmetric(g) ==> forall i :: 0 <= i < |comps| ==> ClosedUnder(g, comps[i])
    ensures visited + {n} <= visited' <= Nodes(g)
    ensures visited' == Union(comps')
    ensures forall i :: 0 <= i < |comps'| ==> comps'[i] != {}
    ensures forall i, j :: 0 <= i < j < |comps'| ==> comps'[i] !! comps'[j]
    ensures forall i, k, m :: 0 <= i < |comps'| && k in comps'[i] && m in Neighbours(g, k) ==> m in visited'
    ensures Symmetric(g) ==> forall i :: 0 <= i < |comps'| ==> ClosedUnder(g, comps'[i])
  {
    var comp;
    comp, visited' := Explore(g, n, visited);
    if Symmetric(g) {
      NewComponentClosed(g, comps, visited, comp);
    }
    DisjointFromEarlier(comps, comp);
    UnionAppend(comps, comp);
    comps' := comps + [comp];
    assert comps'[..|comps|] == comps && comps'[|comps|] == comp;
    forall i, k, m | 0 <= i < |comps'| && k in comps'[i] && m in Neighbours(g, k)
      ensures m in visited'
    {
      if i < |comps| {
        assert k in comps[i];
      }
    }
  }

  // ---------------------------------------------------------------------
  // extract_paths_from_component: edges and walks

  /** `ekey(a, b)`: an undirected edge, its two keys in tuple order. */
  datatype Edge = Edge(lo: Key, hi: Key)

  function EKey(a: Key, b: Key): Edge {
    if KeyLe(a, b) then Edge(a, b) else Edge(b, a)
  }

  /** An edge has the same key whichever end it is named from. */
  lemma EKeySymmetric(a: Key, b: Key)
    ensures EKey(a, b) == EKey(b, a)
  {
  }

  /** Every undirected edge of the graph. */
  function AllEdges(g: Graph): set<Edge> {
    set k, n | k in g && n in g[k] :: EKey(k, n)
  }

  /** The edges among `es` that join two different keys. */
  function Proper(es: set<Edge>): set<Edge> {
    set e | e in es && e.lo != e.hi
  }

  /** The edge a step from a to b runs along, none when the key repeats. */
  function Bridge(a: Key, b: Key): set<Edge> {
    if a == b then {} else {EKey(a, b)}
  }

  /** Recording the edge of a step adds its proper part. */
  lemma ProperAdd(es: set<Edge>, a: Key, b: Key)
    ensures Proper(es + {EKey(a, b)}) == Proper(es) + Bridge(a, b)
  {
  }

  /** Every edge from k to another key lies in es. */
  ghost predicate Saturated(g: Graph, k: Key, es: set<Edge>) {
    forall n :: n in Neighbours(g, k) && n != k ==> EKey(k, n) in es
  }

  /**
   * Where a walk stops: every neighbour is consumed or is the key it came
   * from, whose edge is consumed too; then every edge to another key is.
   */
  lemma EndSaturated(g: Graph, k: Key, back: Key, visited: set<Edge>)
    requires forall n :: n in Neighbours(g, k) ==> EKey(k, n) in visited || n == back
    requires k == back || EKey(k, back) in visited
    ensures Saturated(g, k, Proper(visited))
  {
  }

  /** The edges a key sequence runs along, leaving out repeated keys. */
  function Edges(keys: seq<Key>): set<Edge>
    decreases |keys|
  {
    if |keys| < 2 then {}
    else Edges(keys[..|keys| - 1]) + Bridge(keys[|keys| - 2], keys[|keys| - 1])
  }

  /** The edges of a concatenation: both parts and the step between them. */
  lemma {:induction false} EdgesAppend(s: seq<Key>, t: seq<Key>)
    requires s != [] && t != []
    ensures Edges(s + t) == Edges(s) + Bridge(Last(s), t[0]) + Edges(t)
    decreases |t|
  {
    if |t| == 1 {
      assert (s + t)[..|s + t| - 1] == s;
    } else {
      var p := t[..|t| - 1];
      EdgesAppend(s, p);
      assert (s + t)[..|s + t| - 1] == s + p;
    }
  }

  /** `list(reversed(s))`. */
  function Reverse(s: seq<Key>): (r: seq<Key>)
    ensures |r| == |s|
    ensures forall i :: 0 <= i < |s| ==> r[i] == s[|s| - 1 - i]
  {
    if s == [] then [] else [s[|s| - 1]] + Reverse(s[..|s| - 1])
  }

  /** Reversing a sequence runs along the same undirected edges. */
  lemma {:induction false} EdgesReverse(s: seq<Key>)
    ensures Edges(Reverse(s)) == Edges(s)
  {
    if |s| >= 2 {
      var p := s[..|s| - 1];
      EdgesReverse(p);
      assert Reverse(s) == [Last(s)] + Reverse(p);
      EdgesAppend([Last(s)], Reverse(p));
      assert Edges([Last(s)]) == {};
      EKeySymmetric(Last(s), Last(p));
    }
  }

  /** Key i + 1 repeats key i or is one of its neighbours. */
  ghost predicate StepAt(g: Graph, keys: seq<Key>, i: nat)
    requires i + 1 < |keys|
  {
    keys[i + 1] == keys[i] || keys[i + 1] in Neighbours(g, keys[i])
  }

  /** Every step of the sequence follows an edge of g or repeats a key. */
  ghost predicate Walk(g: Graph, keys: seq<Key>) {
    forall i :: 0 <= i < |keys| - 1 ==> StepAt(g, keys, i)
  }

  lemma WalkAppend(g: Graph, s: seq<Key>, t: seq<Key>)
    requires s != [] && t != [] && Walk(g, s) && Walk(g, t)
    requires t[0] == Last(s) || t[0] in Neighbours(g, Last(s))
    ensures Walk(g, s + t)
  {
    var r := s + t;
    forall i | 0 <= i < |r| - 1
      ensures StepAt(g, r, i)
    {
      if i + 1 < |s| {
        assert StepAt(g, s, i);
      } else if i >= |s| {
        assert StepAt(g, t, i - |s|);
      }
    }
  }

  /** On a symmetric graph a walk can be followed backwards. */
  lemma WalkReverse(g: Graph, s: seq<Key>)
    requires Symmetric(g) && Walk(g, s)
    ensures Walk(g, Reverse(s))
  {
    var r := Reverse(s);
    forall i | 0 <= i < |r| - 1
      ensures StepAt(g, r, i)
    {
      var j := |s| - 2 - i;
      assert StepAt(g, s, j);
      assert r[i] == s[j + 1] && r[i + 1] == s[j];
    }
  }

  /** `[n for n in neighbors(c) if ekey(c, n) not in visited_edges and n != p]`. */
  function Usable(ns: seq<Key>, c: Key, p: Key, visited: set<Edge>): (r: seq<Key>)
    ensures forall n :: n in r <==> n in ns && EKey(c, n) !in visited && n != p
  {
    if ns == [] then []
    else
      var rest := Usable(ns[1..], c, p, visited);
      if EKey(c, ns[0]) !in visited && ns[0] != p then [ns[0]] + rest else rest
  }

  /**
   * The edge a usable step takes is an edge of the graph and is fresh, and
   * recording it extends the walk's edges by its proper part.
   */
  lemma StepEdge(g: Graph, order: seq<Key>, n: Key, visited: set<Edge>)
    requires order != [] && n in Neighbours(g, Last(order))
    ensures EKey(Last(order), n) in AllEdges(g)
    ensures Edges(order + [n]) == Edges(order) + Bridge(Last(order), n)
    ensures Proper(visited + {EKey(Last(order), n)}) == Proper(visited) + Bridge(Last(order), n)
  {
    var c := Last(order);
    assert c in g && n in g[c];
    assert (order + [n])[..|order|] == order;
    ProperAdd(visited, c, n);
  }

  /** One step of walk_forward keeps the walk's invariants and consumes a fresh edge. */
  lemma WalkStep(g: Graph, cur: Key, visited0: set<Edge>, order: seq<Key>, visited: set<Edge>, n: Key)
    requires order != [] && order[0] == cur && Walk(g, order) && forall k :: k in order ==> k in Nodes(g)
    requires visited0 <= visited <= AllEdges(g) && Edges(order) !! visited0
    requires Proper(visited) == Proper(visited0) + Edges(order)
    requires n in Neighbours(g, Last(order)) && EKey(Last(order), n) !in visited
    ensures var order', visited' := order + [n], visited + {EKey(Last(order), n)};
            && order'[0] == cur && Walk(g, order') && (forall k :: k in order' ==> k in Nodes(g))
            && visited0 <= visited' <= AllEdges(g) && Edges(order') !! visited0
            && Proper(visited') == Proper(visited0) + Edges(order')
            && AllEdges(g) - visited' < AllEdges(g) - visited
  {
    StepEdge(g, order, n, visited);
    NeighboursAreNodes(g, Last(order));
    WalkAppend(g, order, [n]);
  }

  /**
   * utils.extract_paths_from_component's walk_forward: from `cur`, having
   * arrived from `prev`, keep taking the first neighbour whose edge is not
   * yet consumed and that is not the key just left, consuming its edge.
   * The walk follows edges, consumes only fresh edges and records them all,
   * and it stops only where no such neighbour is left.
   */
  method WalkForward(g: Graph, cur: Key, prev: Key, visited0: set<Edge>) returns (order: seq<Key>, visited: set<Edge>)
    requires cur in Nodes(g) && visited0 <= AllEdges(g)
    requires cur == prev || EKey(cur, prev) in visited0
    ensures order != [] && order[0] == cur
    ensures Walk(g, order) && forall k :: k in order ==> k in Nodes(g)
    ensures visited0 <= visited <= AllEdges(g)
    ensures Edges(order) !! visited0
    ensures Proper(visited) == Proper(visited0) + Edges(order)
    ensures var back := if |order| >= 2 then order[|order| - 2] else prev;
            forall n :: n in Neighbours(g, Last(order)) ==> EKey(Last(order), n) in visited || n == back
    ensures Saturated(g, Last(order), Proper(visited))
  {
    order := [cur];
    visited := visited0;
    var p, c := prev, cur;
    while true
      invariant order != [] && order[0] == cur && Last(order) == c
      invariant p == if |order| >= 2 then order[|order| - 2] else prev
      invariant Walk(g, order) && forall k :: k in order ==> k in Nodes(g)
      invariant visited0 <= visited <= AllEdges(g)
      invariant Edges(order) !! visited0
      invariant Proper(visited) == Proper(visited0) + Edges(order)
      invariant c == p || EKey(c, p) in visited
      decreases AllEdges(g) - visited
    {
      var nxts := Usable(Neighbours(g, c), c, p, visited);
      if nxts == [] {
        EndSaturated(g, c, p, visited);
        break;
      }
      var n := nxts[0];
      assert n in nxts;
      WalkStep(g, cur, visited0, order, visited, n);
      EKeySymmetric(c, n);
      visited := visited + {EKey(c, n)};
      order := order + [n];
      p, c := c, n;
    }
  }

  // ---------------------------------------------------------------------
  // extract_paths_from_component: paths

  /** An ordered key path and its closed flag, `(ordered_keys, is_closed)`. */
  datatype Path = Path(keys: seq<Key>, closed: bool)

  /**
   * How a spliced path is flagged closed: utils.extract_paths_from_component
   * asks whether the first key is adjacent to the last, the copy inside
   * build_all_selected_uv_paths whether every key has degree 2. Both want
   * at least 3 keys.
   */
  datatype ClosureRule = AdjacentEnds | AllDegreeTwo

  predicate ClosedBy(rule: ClosureRule, g: Graph, keys: seq<Key>) {
    |keys| >= 3 &&
    match rule
    case AdjacentEnds => keys[0] in Neighbours(g, keys[|keys| - 1])
    case AllDegreeTwo => forall k :: k in keys ==> Degree(g, k) == 2
  }

  /** The edges run along by a list of paths. */
  function EdgeUnion(paths: seq<Path>): set<Edge> {
    if paths == [] then {} else EdgeUnion(paths[..|paths| - 1]) + Edges(paths[|paths| - 1].keys)
  }

  lemma {:induction false} EdgesInUnion(paths: seq<Path>, i: nat)
    requires i < |paths|
    ensures Edges(paths[i].keys) <= EdgeUnion(paths)
    decreases |paths|
  {
    if i < |paths| - 1 {
      EdgesInUnion(paths[..|paths| - 1], i);
    }
  }

  /** A well-formed path of g: at least two keys, all of them nodes, steps along edges. */
  ghost predicate PathOf(g: Graph, p: Path) {
    |p.keys| >= 2 && (forall k :: k in p.keys ==> k in Nodes(g)) && (Symmetric(g) ==> Walk(g, p.keys))
  }

  /** Both ends of the path have every edge to another key in es. */
  ghost predicate EndsSaturated(g: Graph, p: Path, es: set<Edge>) {
    p.keys != [] && Saturated(g, p.keys[0], es) && Saturated(g, Last(p.keys), es)
  }

  /**
   * No path could have gone on: when path i was emitted, every edge at
   * either of its ends was already run along by it or by an earlier path.
   */
  ghost predicate Maximal(g: Graph, paths: seq<Path>) {
    forall i :: 0 <= i < |paths| ==> EndsSaturated(g, paths[i], EdgeUnion(paths[..i + 1]))
  }

  lemma SaturatedGrows(g: Graph, k: Key, es: set<Edge>, es': set<Edge>)
    requires Saturated(g, k, es) && es <= es'
    ensures Saturated(g, k, es')
  {
  }

  /** A path whose ends are saturated once it is recorded keeps the list maximal. */
  lemma MaximalAdd(g: Graph, paths: seq<Path>, p: Path)
    requires Maximal(g, paths) && EndsSaturated(g, p, EdgeUnion(paths + [p]))
    ensures Maximal(g, paths + [p])
  {
    var r := paths + [p];
    forall i | 0 <= i < |r|
      ensures EndsSaturated(g, r[i], EdgeUnion(r[..i + 1]))
    {
      if i < |paths| {
        assert r[..i + 1] == paths[..i + 1];
      } else {
        assert r[..i + 1] == r;
      }
    }
  }

  /**
   * What the extraction keeps true as it adds paths: each is a path of g,
   * no edge lies on two of them, together they run along exactly the
   * proper edges consumed so far, and none of them stopped short.
   */
  ghost predicate Consumed(g: Graph, paths: seq<Path>, visited: set<Edge>) {
    && visited <= AllEdges(g)
    && (forall i :: 0 <= i < |paths| ==> PathOf(g, paths[i]))
    && (forall i, j :: 0 <= i < j < |paths| ==> Edges(paths[i].keys) !! Edges(paths[j].keys))
    && EdgeUnion(paths) == Proper(visited)
    && Maximal(g, paths)
  }

  /** Adding a path built from fresh edges keeps the bookkeeping. */
  lemma ConsumedAdd(g: Graph, paths: seq<Path>, visited: set<Edge>, p: Path, visited': set<Edge>)
    requires Consumed(g, paths, visited) && PathOf(g, p)
    requires visited <= visited' <= AllEdges(g)
    requires Edges(p.keys) !! visited
    requires Proper(visited') == Proper(visited) + Edges(p.keys)
    requires EndsSaturated(g, p, Proper(visited'))
    ensures Consumed(g, paths + [p], visited')
  {
    var r := paths + [p];
    MaximalAdd(g, paths, p);
    assert r[..|paths|] == paths;
    forall i, j | 0 <= i < j < |r|
      ensures Edges(r[i].keys) !! Edges(r[j].keys)
    {
      if j == |paths| {
        EdgesInUnion(paths, i);
      }
    }
  }

  /**
   * The first loop's body for an endpoint s: consume the edge to its only
   * neighbour, walk on, and emit `[s] + right` flagged open.
   */
  method EndpointPath(g: Graph, s: Key, visited0: set<Edge>) returns (p: Path, visited: set<Edge>)
    requires s in g && |g[s]| == 1 && EKey(s, g[s][0]) !in visited0 && visited0 <= AllEdges(g)
    ensures PathOf(g, p) && !p.closed && p.keys[0] == s
    ensures visited0 <= visited <= AllEdges(g)
    ensures Edges(p.keys) !! visited0
    ensures Proper(visited) == Proper(visited0) + Edges(p.keys)
    ensures EndsSaturated(g, p, Proper(visited))
  {
    var n := g[s][0];
    StepEdge(g, [s], n, visited0);
    NeighboursAreNodes(g, s);
    visited := visited0 + {EKey(s, n)};
    EKeySymmetric(s, n);
    var right;
    right, visited := WalkForward(g, n, s, visited);
    EdgesAppend([s], right);
    assert Edges([s]) == {};
    WalkAppend(g, [s], right);
    p := Path([s] + right, false);
    assert Neighbours(g, s) == [n];
    assert Last(p.keys) == Last(right);
  }

  /**
   * The second loop's body for a fresh edge a-b: consume it, walk on from
   * b and then from a, and emit `reversed(left) + [a, b] + right`. Both
   * walks start with their own origin, so a and b each appear twice in a
   * row; the splice is modelled as written.
   */
  method SplicePath(g: Graph, a: Key, b: Key, visited0: set<Edge>, rule: ClosureRule) returns (p: Path, visited: set<Edge>)
    requires a in g && b in g[a] && EKey(a, b) !in visited0 && visited0 <= AllEdges(g)
    ensures PathOf(g, p) && p.closed == ClosedBy(rule, g, p.keys)
    ensures visited0 <= visited <= AllEdges(g) && EKey(a, b) in visited
    ensures Edges(p.keys) !! visited0
    ensures Proper(visited) == Proper(visited0) + Edges(p.keys)
    ensures EndsSaturated(g, p, Proper(visited))
  {
    StepEdge(g, [a], b, visited0);
    NeighboursAreNodes(g, a);
    visited := visited0 + {EKey(a, b)};
    EKeySymmetric(a, b);
    var right, left;
    right, visited := WalkForward(g, b, a, visited);
    ghost var mid := visited;
    left, visited := WalkForward(g, a, b, visited);
    SaturatedGrows(g, Last(right), Proper(mid), Proper(visited));
    var order := Reverse(left) + [a, b] + right;
    assert order[0] == Last(left) && Last(order) == Last(right);
    SpliceEdges(left, a, b, right);
    if Symmetric(g) {
      SpliceWalk(g, left, a, b, right);
    }
    p := Path(order, ClosedBy(rule, g, order));
  }

  lemma SpliceEdges(left: seq<Key>, a: Key, b: Key, right: seq<Key>)
    requires left != [] && left[0] == a && right != [] && right[0] == b
    ensures Edges(Reverse(left) + [a, b] + right) == Edges(left) + Bridge(a, b) + Edges(right)
  {
    EdgesReverse(left);
    EdgesAppend(Reverse(left), [a, b]);
    assert Edges([a, b]) == Bridge(a, b) by {
      assert [a, b][..1] == [a];
    }
    EdgesAppend(Reverse(left) + [a, b], right);
  }

  lemma SpliceWalk(g: Graph, left: seq<Key>, a: Key, b: Key, right: seq<Key>)
    requires Symmetric(g) && Walk(g, left) && Walk(g, right)
    requires left != [] && left[0] == a && right != [] && right[0] == b
    requires b in Neighbours(g, a)
    ensures Walk(g, Reverse(left) + [a, b] + right)
  {
    WalkReverse(g, left);
    assert StepAt(g, [a, b], 0);
    WalkAppend(g, Reverse(left), [a, b]);
    WalkAppend(g, Reverse(left) + [a, b], right);
  }

  /**
   * The first loop of the extraction: every key of degree 1, in whatever
   * order, starts an open path unless its edge is already consumed.
   */
  method EndpointPaths(g: Graph) returns (paths: seq<Path>, visited: set<Edge>)
    ensures Consumed(g, paths, visited)
    ensures forall i :: 0 <= i < |paths| ==> !paths[i].closed && Degree(g, paths[i].keys[0]) == 1
  {
    paths, visited := [], {};
    var todo := set k | k in g && |g[k]| == 1;
    while todo != {}
      invariant forall k :: k in todo ==> k in g && |g[k]| == 1
      invariant Consumed(g, paths, visited)
      invariant forall i :: 0 <= i < |paths| ==> !paths[i].closed && Degree(g, paths[i].keys[0]) == 1
      decreases |todo|
    {
      var s :| s in todo;
      todo := todo - {s};
      var n := g[s][0];
      if EKey(s, n) !in visited {
        paths, visited := AddEndpointPath(g, paths, visited, s);
      }
    }
  }

  /** One turn of the first loop: the open path from the degree-1 key `s`, whose edge is fresh. */
  method AddEndpointPath(g: Graph, paths: seq<Path>, visited: set<Edge>, s: Key)
    returns (paths': seq<Path>, visited': set<Edge>)
    requires s in g && |g[s]| == 1 && EKey(s, g[s][0]) !in visited
    requires Consumed(g, paths, visited)
    requires forall i :: 0 <= i < |paths| ==> !paths[i].closed && Degree(g, paths[i].keys[0]) == 1
    ensures Consumed(g, paths', visited')
    ensures forall i :: 0 <= i < |paths'| ==> !paths'[i].closed && Degree(g, paths'[i].keys[0]) == 1
  {
    var p;
    p, visited' := EndpointPath(g, s, visited);
    ConsumedAdd(g, paths, visited, p, visited');
    paths' := paths + [p];
  }

  /**
   * The inner loop of the second pass for one key a: each neighbour b
   * whose edge is still fresh starts a spliced path.
   */
  method SplicePathsAt(g: Graph, rule: ClosureRule, a: Key, paths0: seq<Path>, visited0: set<Edge>, rooted: nat)
    returns (paths: seq<Path>, visited: set<Edge>)
    requires a in g && Consumed(g, paths0, visited0) && rooted <= |paths0|
    requires forall i :: rooted <= i < |paths0| ==> paths0[i].closed == ClosedBy(rule, g, paths0[i].keys)
    ensures Consumed(g, paths, visited) && visited0 <= visited
    ensures |paths| >= |paths0| && paths[..|paths0|] == paths0
    ensures forall i :: rooted <= i < |paths| ==> paths[i].closed == ClosedBy(rule, g, paths[i].keys)
    ensures forall b :: b in g[a] ==> EKey(a, b) in visited
  {
    paths, visited := paths0, visited0;
    var nbrs := g[a];
    for j := 0 to |nbrs|
      invariant Consumed(g, paths, visited) && visited0 <= visited
      invariant |paths| >= |paths0| && paths[..|paths0|] == paths0
      invariant forall i :: rooted <= i < |paths| ==> paths[i].closed == ClosedBy(rule, g, paths[i].keys)
      invariant forall jj :: 0 <= jj < j ==> EKey(a, nbrs[jj]) in visited
    {
      var b := nbrs[j];
      if EKey(a, b) !in visited {
        ghost var before := paths;
        paths, visited := AddSplice(g, rule, a, b, paths, visited, rooted);
        assert paths[..|paths0|] == before[..|paths0|];
      }
    }
  }

  /** One fresh edge a-b of the second pass: its spliced path is appended. */
  method AddSplice(g: Graph, rule: ClosureRule, a: Key, b: Key, paths0: seq<Path>, visited0: set<Edge>, rooted: nat)
    returns (paths: seq<Path>, visited: set<Edge>)
    requires a in g && b in g[a] && EKey(a, b) !in visited0
    requires Consumed(g, paths0, visited0) && rooted <= |paths0|
    requires forall i :: rooted <= i < |paths0| ==> paths0[i].closed == ClosedBy(rule, g, paths0[i].keys)
    ensures Consumed(g, paths, visited) && visited0 <= visited && EKey(a, b) in visited
    ensures |paths| == |paths0| + 1 && paths[..|paths0|] == paths0
    ensures forall i :: rooted <= i < |paths| ==> paths[i].closed == ClosedBy(rule, g, paths[i].keys)
  {
    var p;
    p, visited := SplicePath(g, a, b, visited0, rule);
    ConsumedAdd(g, paths0, visited0, p, visited);
    paths := paths0 + [p];
    assert paths[..|paths0|] == paths0;
  }

  /**
   * The second loop of the extraction: every key, in whatever order, and
   * each of its neighbours in turn. Afterwards every edge is consumed.
   */
  method SplicedPaths(g: Graph, rule: ClosureRule, paths0: seq<Path>, visited0: set<Edge>)
    returns (paths: seq<Path>, visited: set<Edge>)
    requires Consumed(g, paths0, visited0)
    ensures Consumed(g, paths, visited) && visited == AllEdges(g)
    ensures |paths| >= |paths0| && paths[..|paths0|] == paths0
    ensures forall i :: |paths0| <= i < |paths| ==> paths[i].closed == ClosedBy(rule, g, paths[i].keys)
  {
    paths, visited := paths0, visited0;
    var todo := g.Keys;
    while todo != {}
      invariant todo <= g.Keys
      invariant Consumed(g, paths, visited)
      invariant |paths| >= |paths0| && paths[..|paths0|] == paths0
      invariant forall i :: |paths0| <= i < |paths| ==> paths[i].closed == ClosedBy(rule, g, paths[i].keys)
      invariant forall a, b :: a in g && a !in todo && b in g[a] ==> EKey(a, b) in visited
      decreases |todo|
    {
      var a :| a in todo;
      todo := todo - {a};
      ghost var before := paths;
      paths, visited := SplicePathsAt(g, rule, a, paths, visited, |paths0|);
      assert paths[..|paths0|] == before[..|paths0|];
    }
    forall e | e in AllEdges(g)
      ensures e in visited
    {
      var k, n :| k in g && n in g[k] && e == EKey(k, n);
    }
  }

  /**
   * utils.extract_paths_from_component (rule AdjacentEnds) and
   * `_extract_paths` in build_all_selected_uv_paths (rule AllDegreeTwo).
   * Every path has at least two keys, all of them nodes, and on a symmetric
   * graph follows edges; no edge lies on two paths, and together the paths
   * run along every edge between two different keys. The first `rooted`
   * paths start at a key of degree 1 and are open; each later one is
   * closed exactly when the rule says so. No path stops short: when it is
   * emitted, every edge at either end already lies on it or on an earlier
   * path, so no path is a piece of a longer one.
   */
  method ExtractPaths(g: Graph, rule: ClosureRule) returns (paths: seq<Path>, ghost rooted: nat)
    ensures rooted <= |paths|
    ensures forall i :: 0 <= i < |paths| ==> PathOf(g, paths[i])
    ensures forall i, j :: 0 <= i < j < |paths| ==> Edges(paths[i].keys) !! Edges(paths[j].keys)
    ensures EdgeUnion(paths) == Proper(AllEdges(g))
    ensures forall i :: 0 <= i < rooted ==> paths[i].keys != [] && !paths[i].closed && Degree(g, paths[i].keys[0]) == 1
    ensures forall i :: rooted <= i < |paths| ==> paths[i].closed == ClosedBy(rule, g, paths[i].keys)
    ensures Maximal(g, paths)
  {
    var first, visited := EndpointPaths(g);
    rooted := |first|;
    paths, visited := SplicedPaths(g, rule, first, visited);
    forall i | 0 <= i < rooted
      ensures paths[i] == first[i]
    {
      assert paths[..rooted][i] == first[i];
    }
  }

  // ---------------------------------------------------------------------
  // Building the graph from the selected edges

  /** `graph.setdefault(a, set()).add(b)`. */
  function AddNeighbour(g: Graph, a: Key, b: Key): Graph {
    var ns := Neighbours(g, a);
    g[a := if b in ns then ns else ns + [b]]
  }

  /** Adding b to a's neighbours adds exactly that pair and keeps the lists sets. */
  lemma AddNeighbourSpec(g: Graph, a: Key, b: Key)
    requires SetLike(g)
    ensures AddNeighbour(g, a, b).Keys == g.Keys + {a}
    ensures forall k, n :: n in Neighbours(AddNeighbour(g, a, b), k) <==> n in Neighbours(g, k) || (k == a && n == b)
    ensures SetLike(AddNeighbour(g, a, b))
  {
  }

  /** Edge i of the selection joins keys k and n, in one direction or the other. */
  ghost predicate JoinedBy(edges: seq<(Point, Point)>, tol: real, i: nat, k: Key, n: Key)
    requires i < |edges|
  {
    var ka := QuantizeKey(edges[i].0, tol);
    var kb := QuantizeKey(edges[i].1, tol);
    (ka == k && kb == n) || (ka == n && kb == k)
  }

  /** One of the first m selected edges joins k and n. */
  ghost predicate Joined(edges: seq<(Point, Point)>, tol: real, m: nat, k: Key, n: Key)
    requires m <= |edges|
  {
    exists i :: 0 <= i < m && JoinedBy(edges, tol, i, k, n)
  }

  /**
   * The first end point, in the order the edges list them (a0, b0, a1,
   * b1, ...), whose key is k: the point `nodes.setdefault` keeps.
   */
  function FirstPoint(edges: seq<(Point, Point)>, tol: real, k: Key): Option<Point> {
    if edges == [] then None
    else if QuantizeKey(edges[0].0, tol) == k then Some(edges[0].0)
    else if QuantizeKey(edges[0].1, tol) == k then Some(edges[0].1)
    else FirstPoint(edges[1..], tol, k)
  }

  /** A later edge changes the first point of a key only if the key was new. */
  lemma {:induction false} FirstPointAppend(edges: seq<(Point, Point)>, e: (Point, Point), tol: real, k: Key)
    ensures FirstPoint(edges + [e], tol, k) ==
              if FirstPoint(edges, tol, k).Some? then FirstPoint(edges, tol, k) else FirstPoint([e], tol, k)
  {
    if edges != [] {
      assert (edges + [e])[1..] == edges[1..] + [e];
      FirstPointAppend(edges[1..], e, tol, k);
    }
  }

  /** The first point of a key has that key. */
  lemma {:induction false} FirstPointHasKey(edges: seq<(Point, Point)>, tol: real, k: Key)
    requires FirstPoint(edges, tol, k).Some?
    ensures QuantizeKey(FirstPoint(edges, tol, k).value, tol) == k
  {
    if QuantizeKey(edges[0].0, tol) != k && QuantizeKey(edges[0].1, tol) != k {
      FirstPointHasKey(edges[1..], tol, k);
    }
  }

  /** `nodes` holds, for each key seen in `edges`, its first point. */
  ghost predicate FirstPoints(nodes: map<Key, Point>, edges: seq<(Point, Point)>, tol: real) {
    forall k :: (k in nodes <==> FirstPoint(edges, tol, k).Some?) &&
                (k in nodes ==> nodes[k] == FirstPoint(edges, tol, k).value)
  }

  /** `nodes.setdefault(k, p)`. */
  function SetDefault(nodes: map<Key, Point>, k: Key, p: Point): (r: map<Key, Point>)
    ensures r.Keys == nodes.Keys + {k}
    ensures r[k] == (if k in nodes then nodes[k] else p)
    ensures forall j :: j in nodes ==> r[j] == nodes[j]
  {
    if k in nodes then nodes else nodes[k := p]
  }

  /** Recording both ends of edge i keeps `nodes` the first points of the edges so far. */
  lemma NodesStep(nodes: map<Key, Point>, edges: seq<(Point, Point)>, tol: real, i: nat)
    requires i < |edges| && FirstPoints(nodes, edges[..i], tol)
    ensures var (a, b) := edges[i];
            FirstPoints(SetDefault(SetDefault(nodes, QuantizeKey(a, tol), a), QuantizeKey(b, tol), b), edges[..i + 1], tol)
  {
    assert edges[..i + 1] == edges[..i] + [edges[i]];
    forall k {
      NodesStepAt(nodes, edges[..i], edges[i], tol, k);
    }
  }

  lemma NodesStepAt(nodes: map<Key, Point>, prefix: seq<(Point, Point)>, e: (Point, Point), tol: real, k: Key)
    requires k in nodes <==> FirstPoint(prefix, tol, k).Some?
    requires k in nodes ==> nodes[k] == FirstPoint(prefix, tol, k).value
    ensures var m := SetDefault(SetDefault(nodes, QuantizeKey(e.0, tol), e.0), QuantizeKey(e.1, tol), e.1);
            && (k in m <==> FirstPoint(prefix + [e], tol, k).Some?)
            && (k in m ==> m[k] == FirstPoint(prefix + [e], tol, k).value)
  {
    FirstPointAppend(prefix, e, tol, k);
    assert [e][1..] == [];
  }

  /** Both directions of the edge ka-kb, `graph.setdefault(..).add(..)` twice. */
  function Link(g: Graph, ka: Key, kb: Key): Graph {
    AddNeighbour(AddNeighbour(g, ka, kb), kb, ka)
  }

  lemma LinkSpec(g: Graph, ka: Key, kb: Key)
    requires SetLike(g)
    ensures Link(g, ka, kb).Keys == g.Keys + {ka, kb}
    ensures forall k, n :: n in Neighbours(Link(g, ka, kb), k) <==>
              n in Neighbours(g, k) || (k == ka && n == kb) || (k == kb && n == ka)
    ensures SetLike(Link(g, ka, kb))
  {
    AddNeighbourSpec(g, ka, kb);
    AddNeighbourSpec(AddNeighbour(g, ka, kb), kb, ka);
  }

  /**
   * g is the graph of the first m selected edges: symmetric, neighbour
   * lists are sets, each of those edges is stored, and each stored pair
   * comes from one of them.
   */
  ghost predicate GraphOf(g: Graph, edges: seq<(Point, Point)>, tol: real, m: nat)
    requires m <= |edges|
  {
    && Symmetric(g) && SetLike(g)
    && (forall j :: 0 <= j < m ==> QuantizeKey(edges[j].1, tol) in Neighbours(g, QuantizeKey(edges[j].0, tol)))
    && (forall k, n :: n in Neighbours(g, k) ==> Joined(edges, tol, m, k, n))
  }

  /** Linking edge i turns the graph of the first i edges into that of the first i + 1. */
  lemma LinkStep(g: Graph, edges: seq<(Point, Point)>, tol: real, i: nat)
    requires i < |edges| && GraphOf(g, edges, tol, i)
    ensures var ka := QuantizeKey(edges[i].0, tol);
            var kb := QuantizeKey(edges[i].1, tol);
            GraphOf(Link(g, ka, kb), edges, tol, i + 1) && Link(g, ka, kb).Keys == g.Keys + {ka, kb}
  {
    var ka := QuantizeKey(edges[i].0, tol);
    var kb := QuantizeKey(edges[i].1, tol);
    LinkSymmetric(g, ka, kb);
    LinkKeepsPairs(g, edges, tol, i);
    LinkJoined(g, edges, tol, i);
  }

  lemma LinkSymmetric(g: Graph, ka: Key, kb: Key)
    requires Symmetric(g) && SetLike(g)
    ensures Symmetric(Link(g, ka, kb)) && SetLike(Link(g, ka, kb))
    ensures Link(g, ka, kb).Keys == g.Keys + {ka, kb}
  {
    LinkSpec(g, ka, kb);
  }

  lemma LinkKeepsPairs(g: Graph, edges: seq<(Point, Point)>, tol: real, i: nat)
    requires i < |edges| && SetLike(g)
    requires forall j :: 0 <= j < i ==> QuantizeKey(edges[j].1, tol) in Neighbours(g, QuantizeKey(edges[j].0, tol))
    ensures var g' := Link(g, QuantizeKey(edges[i].0, tol), QuantizeKey(edges[i].1, tol));
            forall j :: 0 <= j < i + 1 ==> QuantizeKey(edges[j].1, tol) in Neighbours(g', QuantizeKey(edges[j].0, tol))
  {
    LinkSpec(g, QuantizeKey(edges[i].0, tol), QuantizeKey(edges[i].1, tol));
  }

  lemma LinkJoined(g: Graph, edges: seq<(Point, Point)>, tol: real, i: nat)
    requires i < |edges| && SetLike(g)
    requires forall k, n :: n in Neighbours(g, k) ==> Joined(edges, tol, i, k, n)
    ensures var g' := Link(g, QuantizeKey(edges[i].0, tol), QuantizeKey(edges[i].1, tol));
            forall k, n :: n in Neighbours(g', k) ==> Joined(edges, tol, i + 1, k, n)
  {
    var ka := QuantizeKey(edges[i].0, tol);
    var kb := QuantizeKey(edges[i].1, tol);
    var g' := Link(g, ka, kb);
    LinkSpec(g, ka, kb);
    forall k, n | n in Neighbours(g', k)
      ensures Joined(edges, tol, i + 1, k, n)
    {
      if n in Neighbours(g, k) {
        var j :| 0 <= j < i && JoinedBy(edges, tol, j, k, n);
        assert 0 <= j < i + 1;
      } else {
        assert JoinedBy(edges, tol, i, k, n);
      }
    }
  }

  /** One turn of build_graph's loop: both ends of edge i recorded and linked. */
  method AddEdge(g: Graph, nodes: map<Key, Point>, edges: seq<(Point, Point)>, tol: real, i: nat)
    returns (g': Graph, nodes': map<Key, Point>)
    requires i < |edges| && GraphOf(g, edges, tol, i) && nodes.Keys == g.Keys
    requires FirstPoints(nodes, edges[..i], tol)
    ensures GraphOf(g', edges, tol, i + 1) && nodes'.Keys == g'.Keys
    ensures FirstPoints(nodes', edges[..i + 1], tol)
  {
    NodesStep(nodes, edges, tol, i);
    LinkStep(g, edges, tol, i);
    var ka := QuantizeKey(edges[i].0, tol);
    var kb := QuantizeKey(edges[i].1, tol);
    nodes' := SetDefault(SetDefault(nodes, ka, edges[i].0), kb, edges[i].1);
    g' := Link(g, ka, kb);
  }

  /**
   * The graph of the selected edges, as the loops over the faces of
   * build_all_selected_uv_paths and of both operators build it (selected
   * edges of visible faces, in face and loop order). Every selected edge is
   * stored in both directions, every stored pair comes from a selected
   * edge, neighbour lists are sets, and `nodes` keeps for each key the
   * first point seen with it.
   */
  method BuildGraph(edges: seq<(Point, Point)>, tol: real) returns (g: Graph, nodes: map<Key, Point>)
    ensures Symmetric(g) && SetLike(g)
    ensures forall i :: 0 <= i < |edges| ==>
              QuantizeKey(edges[i].1, tol) in Neighbours(g, QuantizeKey(edges[i].0, tol))
    ensures forall k, n :: n in Neighbours(g, k) ==> Joined(edges, tol, |edges|, k, n)
    ensures nodes.Keys == g.Keys && FirstPoints(nodes, edges, tol)
  {
    g, nodes := map[], map[];
    for i := 0 to |edges|
      invariant GraphOf(g, edges, tol, i) && nodes.Keys == g.Keys
      invariant FirstPoints(nodes, edges[..i], tol)
    {
      g, nodes := AddEdge(g, nodes, edges, tol, i);
    }
    assert edges[..|edges|] == edges;
  }

  // ---------------------------------------------------------------------
  // Per-component subgraphs and build_all_selected_uv_paths

  /** `set(nei for nei in ns if nei in comp)`, keeping the order of ns. */
  function Keep(ns: seq<Key>, comp: set<Key>): (r: seq<Key>)
    ensures forall n :: n in r <==> n in ns && n in comp
  {
    if ns == [] then []
    else (if ns[0] in comp then [ns[0]] else []) + Keep(ns[1..], comp)
  }

  lemma {:induction false} KeepAll(ns: seq<Key>, comp: set<Key>)
    requires forall n :: n in ns ==> n in comp
    ensures Keep(ns, comp) == ns
  {
    if ns != [] {
      KeepAll(ns[1..], comp);
      assert [ns[0]] + ns[1..] == ns;
    }
  }

  /** `{k: set(nei for nei in graph.get(k, set()) if nei in comp) for k in comp}`. */
  function Restrict(g: Graph, comp: set<Key>): (sub: Graph)
    ensures sub.Keys == comp
    ensures forall k, n :: n in Neighbours(sub, k) <==> k in comp && n in Neighbours(g, k) && n in comp
  {
    map k | k in comp :: Keep(Neighbours(g, k), comp)
  }

  /**
   * The subgraph of a component closed under the neighbour relation keeps
   * every neighbour list whole, so degrees are those of the full graph; it
   * is symmetric when the graph is, and its nodes are the component.
   */
  lemma RestrictClosed(g: Graph, comp: set<Key>)
    requires ClosedUnder(g, comp)
    ensures forall k :: k in comp ==> Neighbours(Restrict(g, comp), k) == Neighbours(g, k)
    ensures Nodes(Restrict(g, comp)) == comp
    ensures Symmetric(g) ==> Symmetric(Restrict(g, comp))
  {
    forall k | k in comp
      ensures Neighbours(Restrict(g, comp), k) == Neighbours(g, k)
    {
      KeepAll(Neighbours(g, k), comp);
    }
  }

  /** A walk in the subgraph of a component is a walk in the whole graph. */
  lemma WalkInSubgraph(g: Graph, comp: set<Key>, keys: seq<Key>)
    requires Walk(Restrict(g, comp), keys)
    ensures Walk(g, keys)
  {
    forall i | 0 <= i < |keys| - 1
      ensures StepAt(g, keys, i)
    {
      assert StepAt(Restrict(g, comp), keys, i);
    }
  }

  /** On a symmetric graph every node is a dictionary key. */
  lemma SymmetricNodes(g: Graph)
    requires Symmetric(g)
    ensures Nodes(g) == g.Keys
  {
    forall k, n | k in g && n in g[k]
      ensures n in g
    {
      assert n in Neighbours(g, k);
      assert k in Neighbours(g, n);
    }
  }

  /** The tolerance of `_uv_key_graph` in build_all_selected_uv_paths. */
  const PathKeyTolerance: real := 5e-7

  function DistinctKeys(keys: seq<Key>): set<Key> {
    set k | k in keys
  }

  /**
   * One result of build_all_selected_uv_paths for the key path `keys`: it
   * has more than two distinct keys and follows edges of the graph, its
   * points are the first points seen for its keys, and it is closed
   * exactly when it has at least 3 keys all of degree 2.
   */
  ghost predicate SelectedPath(edges: seq<(Point, Point)>, g: Graph, keys: seq<Key>, path: (seq<Point>, bool)) {
    && |DistinctKeys(keys)| > 2
    && Walk(g, keys)
    && |path.0| == |keys|
    && (forall j :: 0 <= j < |keys| ==> FirstPoint(edges, PathKeyTolerance, keys[j]) == Some(path.0[j]))
    && path.1 == ClosedBy(AllDegreeTwo, g, keys)
  }

  /** A path flagged by degrees in a closed component's subgraph is flagged the same in the graph. */
  lemma ClosedByInSubgraph(g: Graph, comp: set<Key>, keys: seq<Key>)
    requires ClosedUnder(g, comp) && forall k :: k in keys ==> k in comp
    ensures ClosedBy(AllDegreeTwo, Restrict(g, comp), keys) == ClosedBy(AllDegreeTwo, g, keys)
  {
    RestrictClosed(g, comp);
  }

  /** Every result, paired with its key path, is a selected path. */
  ghost predicate AllSelected(edges: seq<(Point, Point)>, g: Graph, keyPaths: seq<seq<Key>>, out: seq<(seq<Point>, bool)>) {
    |keyPaths| == |out| && forall i :: 0 <= i < |out| ==> SelectedPath(edges, g, keyPaths[i], out[i])
  }

  lemma AllSelectedAppend(edges: seq<(Point, Point)>, g: Graph, k1: seq<seq<Key>>, o1: seq<(seq<Point>, bool)>,
                          k2: seq<seq<Key>>, o2: seq<(seq<Point>, bool)>)
    requires AllSelected(edges, g, k1, o1) && AllSelected(edges, g, k2, o2)
    ensures AllSelected(edges, g, k1 + k2, o1 + o2)
  {
    forall i | 0 <= i < |o1 + o2|
      ensures SelectedPath(edges, g, (k1 + k2)[i], (o1 + o2)[i])
    {
      if i >= |o1| {
        assert SelectedPath(edges, g, k2[i - |o1|], o2[i - |o1|]);
      }
    }
  }

  /** `[nodes[k] for k in keys_order]`. */
  function PathPoints(nodes: map<Key, Point>, keys: seq<Key>): (pts: seq<Point>)
    requires forall k :: k in keys ==> k in nodes
    ensures |pts| == |keys| && forall j :: 0 <= j < |keys| ==> pts[j] == nodes[keys[j]]
  {
    seq(|keys|, j requires 0 <= j < |keys| => nodes[keys[j]])
  }

  /**
   * A path extracted from a closed component's subgraph with more than two
   * distinct keys is a selected path of the whole graph. An open path
   * rooted at a key of degree 1 agrees with the degree rule too.
   */
  lemma SelectedFromComponent(edges: seq<(Point, Point)>, g: Graph, nodes: map<Key, Point>, comp: set<Key>, p: Path)
    requires Symmetric(g) && ClosedUnder(g, comp)
    requires FirstPoints(nodes, edges, PathKeyTolerance)
    requires PathOf(Restrict(g, comp), p) && |DistinctKeys(p.keys)| > 2
    requires p.closed == ClosedBy(AllDegreeTwo, Restrict(g, comp), p.keys) ||
             (!p.closed && Degree(Restrict(g, comp), p.keys[0]) == 1)
    requires forall k :: k in p.keys ==> k in nodes
    ensures SelectedPath(edges, g, p.keys, (PathPoints(nodes, p.keys), p.closed))
  {
    RestrictClosed(g, comp);
    WalkInSubgraph(g, comp, p.keys);
    ClosedByInSubgraph(g, comp, p.keys);
    assert p.keys[0] in p.keys;
    var pts := PathPoints(nodes, p.keys);
    forall j | 0 <= j < |p.keys|
      ensures FirstPoint(edges, PathKeyTolerance, p.keys[j]) == Some(pts[j])
    {
      assert p.keys[j] in nodes;
    }
  }

  /** The key sequences of the paths with more than two distinct keys, in order. */
  function LongKeys(paths: seq<Path>): (r: seq<seq<Key>>)
    ensures |r| <= |paths|
    ensures forall i :: 0 <= i < |r| ==> |DistinctKeys(r[i])| > 2
  {
    if paths == [] then []
    else
      var keys := paths[|paths| - 1].keys;
      LongKeys(paths[..|paths| - 1]) + if |DistinctKeys(keys)| > 2 then [keys] else []
  }

  /** One more path adds its keys to LongKeys exactly when it has more than two distinct keys. */
  lemma LongKeysStep(paths: seq<Path>, i: nat)
    requires i < |paths|
    ensures LongKeys(paths[..i + 1]) ==
              LongKeys(paths[..i]) + if |DistinctKeys(paths[i].keys)| > 2 then [paths[i].keys] else []
  {
    assert paths[..i + 1][..i] == paths[..i];
  }

  /** One turn of the component loop: a path with more than two distinct keys is turned into points and kept. */
  method KeepLongPath(edges: seq<(Point, Point)>, g: Graph, nodes: map<Key, Point>, comp: set<Key>, p: Path,
                      out: seq<(seq<Point>, bool)>, ghost keyPaths: seq<seq<Key>>)
    returns (out': seq<(seq<Point>, bool)>, ghost keyPaths': seq<seq<Key>>)
    requires Symmetric(g) && ClosedUnder(g, comp) && comp <= g.Keys
    requires nodes.Keys == g.Keys && FirstPoints(nodes, edges, PathKeyTolerance)
    requires ExtractedPath(Restrict(g, comp), p)
    requires AllSelected(edges, g, keyPaths, out)
    ensures AllSelected(edges, g, keyPaths', out')
    ensures keyPaths' == keyPaths + if |DistinctKeys(p.keys)| > 2 then [p.keys] else []
  {
    out', keyPaths' := out, keyPaths;
    if |DistinctKeys(p.keys)| > 2 {
      SelectedFromComponent(edges, g, nodes, comp, p);
      AllSelectedAppend(edges, g, keyPaths, out, [p.keys], [(PathPoints(nodes, p.keys), p.closed)]);
      out' := out + [(PathPoints(nodes, p.keys), p.closed)];
      keyPaths' := keyPaths + [p.keys];
    }
  }

  /**
   * What ExtractPaths promises of its result on g under rule, the first
   * `rooted` paths being those started from keys of degree 1.
   */
  ghost predicate Extraction(g: Graph, rule: ClosureRule, paths: seq<Path>, rooted: nat) {
    && rooted <= |paths|
    && (forall i :: 0 <= i < |paths| ==> PathOf(g, paths[i]))
    && (forall i, j :: 0 <= i < j < |paths| ==> Edges(paths[i].keys) !! Edges(paths[j].keys))
    && EdgeUnion(paths) == Proper(AllEdges(g))
    && (forall i :: 0 <= i < rooted ==> paths[i].keys != [] && !paths[i].closed && Degree(g, paths[i].keys[0]) == 1)
    && (forall i :: rooted <= i < |paths| ==> paths[i].closed == ClosedBy(rule, g, paths[i].keys))
    && Maximal(g, paths)
  }

  /**
   * The paths of one component, those with more than two distinct keys:
   * `paths` is an extraction of the component's subgraph under the
   * degree rule, and `keyPaths` are exactly its long paths, in order.
   */
  method ComponentPaths(edges: seq<(Point, Point)>, g: Graph, nodes: map<Key, Point>, comp: set<Key>)
    returns (out: seq<(seq<Point>, bool)>, ghost keyPaths: seq<seq<Key>>, ghost paths: seq<Path>, ghost rooted: nat)
    requires Symmetric(g) && ClosedUnder(g, comp) && comp <= g.Keys
    requires nodes.Keys == g.Keys && FirstPoints(nodes, edges, PathKeyTolerance)
    ensures AllSelected(edges, g, keyPaths, out)
    ensures Extraction(Restrict(g, comp), AllDegreeTwo, paths, rooted)
    ensures keyPaths == LongKeys(paths)
  {
    var sub := Restrict(g, comp);
    RestrictClosed(g, comp);
    var found;
    found, rooted := ExtractPaths(sub, AllDegreeTwo);
    paths := found;
    forall i | 0 <= i < |found|
      ensures ExtractedPath(sub, found[i])
    {
      if i < rooted {
        assert found[i].keys != [] && !found[i].closed && Degree(sub, found[i].keys[0]) == 1;
      }
    }
    out, keyPaths := KeepLongPaths(edges, g, nodes, comp, found);
  }

  /**
   * What the extraction promises of each path it yields: it is a path of
   * the subgraph, flagged closed by the degree rule or starting at a key
   * of degree 1 and open.
   */
  ghost predicate ExtractedPath(sub: Graph, p: Path) {
    && PathOf(sub, p)
    && (p.closed == ClosedBy(AllDegreeTwo, sub, p.keys) || (p.keys != [] && !p.closed && Degree(sub, p.keys[0]) == 1))
  }

  /** The loop over the extracted paths of one component: keep those with more than two distinct keys. */
  method KeepLongPaths(edges: seq<(Point, Point)>, g: Graph, nodes: map<Key, Point>, comp: set<Key>, found: seq<Path>)
    returns (out: seq<(seq<Point>, bool)>, ghost keyPaths: seq<seq<Key>>)
    requires Symmetric(g) && ClosedUnder(g, comp) && comp <= g.Keys
    requires nodes.Keys == g.Keys && FirstPoints(nodes, edges, PathKeyTolerance)
    requires forall i :: 0 <= i < |found| ==> ExtractedPath(Restrict(g, comp), found[i])
    ensures AllSelected(edges, g, keyPaths, out)
    ensures keyPaths == LongKeys(found)
  {
    out, keyPaths := [], [];
    for i := 0 to |found|
      invariant AllSelected(edges, g, keyPaths, out)
      invariant keyPaths == LongKeys(found[..i])
    {
      LongKeysStep(found, i);
      assert ExtractedPath(Restrict(g, comp), found[i]);
      out, keyPaths := KeepLongPath(edges, g, nodes, comp, found[i], out, keyPaths);
    }
    assert found[..|found|] == found;
  }

  /**
   * utils.build_all_selected_uv_paths over the selected edges of visible
   * faces: every result has more than two distinct keys, follows edges of
   * the selection graph, carries the first point seen for each key, and is
   * closed exactly when it has at least 3 keys all of degree 2. The graph
   * g is that of the selection: every selected edge joins its two keys in
   * it, and every pair of neighbours in it is joined by a selected edge.
   */
  method BuildAllSelectedUvPaths(edges: seq<(Point, Point)>)
    returns (out: seq<(seq<Point>, bool)>, ghost g: Graph, ghost keyPaths: seq<seq<Key>>,
             ghost comps: seq<set<Key>>, ghost perComp: seq<seq<Path>>, ghost rooted: seq<nat>)
    ensures Symmetric(g)
    ensures forall i :: 0 <= i < |edges| ==>
              QuantizeKey(edges[i].1, PathKeyTolerance) in Neighbours(g, QuantizeKey(edges[i].0, PathKeyTolerance))
    ensures forall k, n :: n in Neighbours(g, k) ==> Joined(edges, PathKeyTolerance, |edges|, k, n)
    ensures edges == [] ==> out == []
    ensures AllSelected(edges, g, keyPaths, out)
    ensures forall c :: 0 <= c < |comps| ==> comps[c] != {} && ClosedUnder(g, comps[c])
    ensures forall c, d :: 0 <= c < d < |comps| ==> comps[c] !! comps[d]
    ensures Union(comps) == Nodes(g)
    ensures |perComp| == |comps| == |rooted|
    ensures forall c :: 0 <= c < |comps| ==> Extraction(Restrict(g, comps[c]), AllDegreeTwo, perComp[c], rooted[c])
    ensures keyPaths == AllLongKeys(perComp)
  {
    var graph, nodes := BuildGraph(edges, PathKeyTolerance);
    g := graph;
    if |graph| == 0 {
      return [], g, [], [], [], [];
    }
    var cs := ConnectedComponents(graph);
    comps := cs;
    SymmetricNodes(graph);
    forall c | 0 <= c < |cs|
      ensures cs[c] <= graph.Keys
    {
      SubsetOfUnion(cs, c);
    }
    out, keyPaths, perComp, rooted := ComponentsPaths(edges, graph, nodes, cs);
  }

  /** The loop over the components: each one's long paths, appended in turn. */
  method ComponentsPaths(edges: seq<(Point, Point)>, g: Graph, nodes: map<Key, Point>, comps: seq<set<Key>>)
    returns (out: seq<(seq<Point>, bool)>, ghost keyPaths: seq<seq<Key>>, ghost perComp: seq<seq<Path>>, ghost rooted: seq<nat>)
    requires Symmetric(g) && forall c :: 0 <= c < |comps| ==> ClosedUnder(g, comps[c]) && comps[c] <= g.Keys
    requires nodes.Keys == g.Keys && FirstPoints(nodes, edges, PathKeyTolerance)
    ensures AllSelected(edges, g, keyPaths, out)
    ensures |perComp| == |comps| == |rooted|
    ensures forall c :: 0 <= c < |comps| ==> Extraction(Restrict(g, comps[c]), AllDegreeTwo, perComp[c], rooted[c])
    ensures keyPaths == AllLongKeys(perComp)
  {
    out, keyPaths, perComp, rooted := [], [], [], [];
    for c := 0 to |comps|
      invariant AllSelected(edges, g, keyPaths, out)
      invariant |perComp| == |rooted| == c
      invariant forall d :: 0 <= d < c ==> Extraction(Restrict(g, comps[d]), AllDegreeTwo, perComp[d], rooted[d])
      invariant keyPaths == AllLongKeys(perComp)
    {
      var o, kp, ps, r := ComponentPaths(edges, g, nodes, comps[c]);
      AllSelectedAppend(edges, g, keyPaths, out, kp, o);
      assert (perComp + [ps])[..c] == perComp;
      out, keyPaths, perComp, rooted := out + o, keyPaths + kp, perComp + [ps], rooted + [r];
    }
  }

  /** The long key paths of every component's extraction, component after component. */
  function AllLongKeys(perComp: seq<seq<Path>>): (r: seq<seq<Key>>)
    ensures forall i :: 0 <= i < |r| ==> |DistinctKeys(r[i])| > 2
  {
    if perComp == [] then []
    else AllLongKeys(perComp[..|perComp| - 1]) + LongKeys(perComp[|perComp| - 1])
  }
}
