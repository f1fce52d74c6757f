/** `EdmondsMinimumSpanningArborescenceFinder.getSpanningArborescence`: the vertices of
    an arbitrary graph are numbered 1, 2, ... in iteration order, the integer finder runs
    on the renumbered copy, and each edge it returns is looked up again in the original
    graph by its endpoints. */
module EdmondsGeneric {
  import opened Outcomes
  import opened Digraph
  import opened EdmondsSelection
  import opened EdmondsFinder
  import opened Sequences

  /** `vertexMap` numbers the vertices `vs` from 1 in order and `reverseMap` undoes it. */
  ghost predicate Numbering<V(!new)>(vs: seq<V>, vertexMap: map<V, int>, reverseMap: map<int, V>) {
    && (forall v :: v in vertexMap <==> v in vs)
    && (forall k :: k in reverseMap <==> 1 <= k <= |vs|)
    && (forall i :: 0 <= i < |vs| ==> vertexMap[vs[i]] == i + 1 && reverseMap[i + 1] == vs[i])
  }

  /** The copy of `e` between the numbers of its endpoints, with the same weight. */
  function Renamed<V>(e: Edge<V>, vertexMap: map<V, int>): Edge<int>
    requires e.source in vertexMap && e.target in vertexMap
  {
    Edge(vertexMap[e.source], vertexMap[e.target], e.weight)
  }

  /** The first loop of `getSpanningArborescence`: every vertex gets the next number, and
      the numbers become the vertices of the integer graph. */
  method NumberVertices<V(!new)>(vs: seq<V>) returns (ids: seq<int>, vertexMap: map<V, int>, reverseMap: map<int, V>)
    requires Distinct(vs)
    ensures Numbering(vs, vertexMap, reverseMap)
    ensures |ids| == |vs| && forall i :: 0 <= i < |ids| ==> ids[i] == i + 1
  {
    ids, vertexMap, reverseMap := [], map[], map[];
    var id := 1;
    for i := 0 to |vs|
      invariant id == i + 1
      invariant Numbering(vs[..i], vertexMap, reverseMap)
      invariant |ids| == i && forall j :: 0 <= j < i ==> ids[j] == j + 1
    {
      ids := ids + [id];
      vertexMap := vertexMap[vs[i] := id];
      reverseMap := reverseMap[id := vs[i]];
      id := id + 1;
    }
    assert vs[..|vs|] == vs;
  }

  /** The second loop of `getSpanningArborescence`: every edge is copied, in order, between
      the numbers of its endpoints. */
  method RenameEdges<V>(es: seq<Edge<V>>, vertexMap: map<V, int>) returns (renamed: seq<Edge<int>>)
    requires forall e :: e in es ==> e.source in vertexMap && e.target in vertexMap
    ensures |renamed| == |es| && forall i :: 0 <= i < |es| ==> renamed[i] == Renamed(es[i], vertexMap)
  {
    renamed := [];
    for i := 0 to |es|
      invariant |renamed| == i && forall j :: 0 <= j < i ==> renamed[j] == Renamed(es[j], vertexMap)
    {
      var e := es[i];
      renamed := renamed + [Edge(vertexMap[e.source], vertexMap[e.target], e.weight)];
    }
  }

  /** The numbering is a bijection between `vs` and `1..|vs|`. */
  lemma NumberingInverse<V(!new)>(vs: seq<V>, vertexMap: map<V, int>, reverseMap: map<int, V>)
    requires Numbering(vs, vertexMap, reverseMap)
    ensures forall v :: v in vs ==> 1 <= vertexMap[v] <= |vs| && reverseMap[vertexMap[v]] == v
    ensures forall k :: 1 <= k <= |vs| ==> reverseMap[k] in vs && vertexMap[reverseMap[k]] == k
  {
    forall v | v in vs ensures 1 <= vertexMap[v] <= |vs| && reverseMap[vertexMap[v]] == v {
      var i :| 0 <= i < |vs| && vs[i] == v;
    }
    forall k | 1 <= k <= |vs| ensures reverseMap[k] in vs && vertexMap[reverseMap[k]] == k {
      assert vs[k - 1] == reverseMap[k];
    }
  }

  /** The edge of `graph` between the vertices numbered like the endpoints of `x`: what
      `graph.getEdge(reverseMap.get(s), reverseMap.get(t))` finds. */
  function Restore<V(==)>(graph: Graph<V>, reverseMap: map<int, V>, x: Edge<int>): Option<Edge<V>>
    requires x.source in reverseMap && x.target in reverseMap
  {
    GetEdge(graph.edges, reverseMap[x.source], reverseMap[x.target])
  }

  /** Every edge of `A` has numbered endpoints between which `graph` has an edge. */
  ghost predicate Restorable<V>(graph: Graph<V>, reverseMap: map<int, V>, A: set<Edge<int>>) {
    forall x :: x in A ==> x.source in reverseMap && x.target in reverseMap && Restore(graph, reverseMap, x).Some?
  }

  ghost function Restored<V>(graph: Graph<V>, reverseMap: map<int, V>, A: set<Edge<int>>): set<Edge<V>>
    requires Restorable(graph, reverseMap, A)
  {
    set x | x in A :: Restore(graph, reverseMap, x).value
  }

  lemma RestoredAdd<V>(graph: Graph<V>, reverseMap: map<int, V>, A: set<Edge<int>>, x: Edge<int>)
    requires Restorable(graph, reverseMap, A + {x})
    ensures Restored(graph, reverseMap, A + {x}) == Restored(graph, reverseMap, A) + {Restore(graph, reverseMap, x).value}
  {
  }

  /** The last loop of `getSpanningArborescence`: every edge of the integer arborescence is
      looked up in `graph` by the vertices its endpoints number. */
  method RestoreEdges<V(==)>(graph: Graph<V>, reverseMap: map<int, V>, intArb: set<Edge<int>>) returns (edges: set<Edge<V>>)
    requires Restorable(graph, reverseMap, intArb)
    ensures edges == Restored(graph, reverseMap, intArb)
  {
    edges := {};
    ghost var seen: set<Edge<int>> := {};
    var rest := intArb;
    while rest != {}
      invariant seen + rest == intArb && seen !! rest
      invariant edges == Restored(graph, reverseMap, seen)
      decreases |rest|
    {
      var x :| x in rest;
      RestoredAdd(graph, reverseMap, seen, x);
      MoveOne(seen, rest, intArb, x);
      edges := edges + {GetEdge(graph.edges, reverseMap[x.source], reverseMap[x.target]).value};
      rest := rest - {x};
      seen := seen + {x};
    }
  }

  /** The renumbered copy of a simple graph is simple, its vertices are at most its vertex
      count, and each of its edges is the copy of an edge of `graph`. */
  lemma RenumberedSimple<V(!new)>(graph: Graph<V>, intG: Graph<int>, vertexMap: map<V, int>, reverseMap: map<int, V>)
    requires Simple(graph) && Numbering(graph.vertices, vertexMap, reverseMap)
    requires |intG.vertices| == |graph.vertices| && forall i :: 0 <= i < |intG.vertices| ==> intG.vertices[i] == i + 1
    requires |intG.edges| == |graph.edges|
    requires forall i :: 0 <= i < |graph.edges| ==> intG.edges[i] == Renamed(graph.edges[i], vertexMap)
    ensures Simple(intG)
    ensures forall v :: v in intG.vertices <==> 1 <= v <= |intG.vertices|
    ensures forall x :: x in intG.edges ==> exists e :: e in graph.edges && x == Renamed(e, vertexMap)
    ensures forall e :: e in graph.edges ==> Renamed(e, vertexMap) in intG.edges
  {
    var n := |intG.vertices|;
    forall e | e in graph.edges ensures Renamed(e, vertexMap) in intG.edges {
      var i :| 0 <= i < |graph.edges| && graph.edges[i] == e;
      assert intG.edges[i] == Renamed(e, vertexMap);
    }
    NumberingInverse(graph.vertices, vertexMap, reverseMap);
    forall v ensures v in intG.vertices <==> 1 <= v <= n {
      if 1 <= v <= n {
        assert intG.vertices[v - 1] == v;
      }
    }
    forall x | x in intG.edges ensures exists e :: e in graph.edges && x == Renamed(e, vertexMap) {
      var i :| 0 <= i < |intG.edges| && intG.edges[i] == x;
      assert graph.edges[i] in graph.edges;
    }
    forall x1, x2 | x1 in intG.edges && x2 in intG.edges && x1.source == x2.source && x1.target == x2.target
      ensures x1 == x2
    {
      var e1 :| e1 in graph.edges && x1 == Renamed(e1, vertexMap);
      var e2 :| e2 in graph.edges && x2 == Renamed(e2, vertexMap);
      assert reverseMap[x1.source] == e1.source == e2.source;
    }
  }

  /** Restoring the copy of an edge of a simple graph gives back that edge. */
  lemma RestoreRenamed<V(!new)>(graph: Graph<V>, vertexMap: map<V, int>, reverseMap: map<int, V>, e: Edge<V>)
    requires Simple(graph) && Numbering(graph.vertices, vertexMap, reverseMap) && e in graph.edges
    ensures Renamed(e, vertexMap).source in reverseMap && Renamed(e, vertexMap).target in reverseMap
    ensures Restore(graph, reverseMap, Renamed(e, vertexMap)) == Some(e)
  {
    NumberingInverse(graph.vertices, vertexMap, reverseMap);
  }

  /** If every cut of `graph` is entered, so is every cut of its renumbered copy. */
  lemma RenumberedCuts<V(!new)>(graph: Graph<V>, intG: Graph<int>, vertexMap: map<V, int>, reverseMap: map<int, V>, root: V)
    requires Simple(graph) && Numbering(graph.vertices, vertexMap, reverseMap)
    requires forall v :: v in intG.vertices <==> 1 <= v <= |graph.vertices|
    requires forall e :: e in graph.edges ==> Renamed(e, vertexMap) in intG.edges
    requires root in graph.vertices && EveryCutEntered(graph, root)
    ensures EveryCutEntered(intG, vertexMap[root])
  {
    forall S': set<int> | S' != {} && vertexMap[root] !in S' && (forall k :: k in S' ==> k in intG.vertices)
      ensures EnteredFromOutside(intG, S')
    {
      RenumberedCut(graph, intG, vertexMap, reverseMap, root, S');
    }
  }

  /** A cut of the renumbered copy is entered where the cut of the vertices it numbers is. */
  lemma RenumberedCut<V(!new)>(graph: Graph<V>, intG: Graph<int>, vertexMap: map<V, int>, reverseMap: map<int, V>,
                               root: V, S': set<int>)
    requires Simple(graph) && Numbering(graph.vertices, vertexMap, reverseMap)
    requires forall v :: v in intG.vertices ==> 1 <= v <= |graph.vertices|
    requires forall e :: e in graph.edges ==> Renamed(e, vertexMap) in intG.edges
    requires root in graph.vertices && EveryCutEntered(graph, root)
    requires S' != {} && vertexMap[root] !in S' && (forall k :: k in S' ==> k in intG.vertices)
    ensures EnteredFromOutside(intG, S')
  {
    var k0 := Element(S');
    NumberingInverse(graph.vertices, vertexMap, reverseMap);
    var S := set k | k in S' :: reverseMap[k];
    assert reverseMap[k0] in S;
    assert EnteredFromOutside(graph, S);
    var e :| e in graph.edges && e.source !in S && e.target in S;
    var x := Renamed(e, vertexMap);
    assert x in intG.edges && x.target in S';
  }

  /** Restoring edges of the renumbered copy that avoid the root's number gives edges of
      `graph` that avoid the root. */
  lemma RestoredEdgesInGraph<V(!new)>(graph: Graph<V>, intG: Graph<int>, vertexMap: map<V, int>, reverseMap: map<int, V>,
                                      root: V, intRoot: int, A: set<Edge<int>>)
    requires Simple(graph) && Numbering(graph.vertices, vertexMap, reverseMap)
    requires forall x :: x in intG.edges ==> exists e :: e in graph.edges && x == Renamed(e, vertexMap)
    requires intRoot == if root in vertexMap then vertexMap[root] else 0
    requires forall x :: x in A ==> x in intG.edges && x.target != intRoot
    ensures Restorable(graph, reverseMap, A)
    ensures forall y :: y in Restored(graph, reverseMap, A) ==> y in graph.edges && y.target != root
  {
    NumberingInverse(graph.vertices, vertexMap, reverseMap);
    forall x | x in A
      ensures x.source in reverseMap && x.target in reverseMap && Restore(graph, reverseMap, x).Some?
      ensures Restore(graph, reverseMap, x).value in graph.edges && Restore(graph, reverseMap, x).value.target != root
    {
      var e :| e in graph.edges && x == Renamed(e, vertexMap);
      RestoreRenamed(graph, vertexMap, reverseMap, e);
    }
  }

  /** Restoring an arborescence of the renumbered copy gives an arborescence of `graph`. */
  lemma RestoredOneEdgeIntoEach<V(!new)>(graph: Graph<V>, intG: Graph<int>, vertexMap: map<V, int>, reverseMap: map<int, V>,
                                         root: V, intArb: set<Edge<int>>)
    requires Simple(graph) && Numbering(graph.vertices, vertexMap, reverseMap)
    requires forall v :: v in intG.vertices <==> 1 <= v <= |graph.vertices|
    requires forall x :: x in intG.edges ==> exists e :: e in graph.edges && x == Renamed(e, vertexMap)
    requires root in graph.vertices && OneEdgeIntoEach(intG, vertexMap[root], intArb)
    ensures Restorable(graph, reverseMap, intArb)
    ensures OneEdgeIntoEach(graph, root, Restored(graph, reverseMap, intArb))
  {
    NumberingInverse(graph.vertices, vertexMap, reverseMap);
    forall x | x in intArb
      ensures x.source in reverseMap && x.target in reverseMap && Restore(graph, reverseMap, x).Some?
      ensures Restore(graph, reverseMap, x).value.target == reverseMap[x.target]
      ensures Restore(graph, reverseMap, x).value.target != root
      ensures reverseMap[x.target] in vertexMap && vertexMap[reverseMap[x.target]] == x.target
    {
      var e :| e in graph.edges && x == Renamed(e, vertexMap);
      RestoreRenamed(graph, vertexMap, reverseMap, e);
    }
    var A := Restored(graph, reverseMap, intArb);
    forall v | v in graph.vertices && v != root ensures exists y :: y in A && y.target == v {
      assert vertexMap[v] in intG.vertices;
      var x :| x in intArb && x.target == vertexMap[v];
      assert Restore(graph, reverseMap, x).value in A;
    }
    RestoredUnique(graph, vertexMap, reverseMap, intArb);
  }

  /** Restoring edges with distinct targets gives edges with distinct targets: the
      numbering tells the targets apart. */
  lemma RestoredUnique<V>(graph: Graph<V>, vertexMap: map<V, int>, reverseMap: map<int, V>, intArb: set<Edge<int>>)
    requires Restorable(graph, reverseMap, intArb)
    requires forall x :: x in intArb ==>
      && Restore(graph, reverseMap, x).value.target == reverseMap[x.target]
      && reverseMap[x.target] in vertexMap && vertexMap[reverseMap[x.target]] == x.target
    requires forall x1, x2 :: x1 in intArb && x2 in intArb && x1.target == x2.target ==> x1 == x2
    ensures forall y1, y2 ::
      (y1 in Restored(graph, reverseMap, intArb) && y2 in Restored(graph, reverseMap, intArb) && y1.target == y2.target) ==>
      y1 == y2
  {
    var A := Restored(graph, reverseMap, intArb);
    forall y1, y2 | y1 in A && y2 in A && y1.target == y2.target ensures y1 == y2 {
      var x1 :| x1 in intArb && y1 == Restore(graph, reverseMap, x1).value;
      var x2 :| x2 in intArb && y2 == Restore(graph, reverseMap, x2).value;
      assert vertexMap[y1.target] == x1.target && vertexMap[y2.target] == x2.target;
    }
  }

  /** The numbering of a restored vertex is the numbering of its number. */
  ghost function RestoredRank<V>(rank: int -> nat, vertexMap: map<V, int>): V -> nat {
    v => if v in vertexMap then rank(vertexMap[v]) else 0
  }

  /** Restoring numbered edges of the renumbered copy gives numbered edges of `graph`. */
  lemma RestoredRanked<V(!new)>(graph: Graph<V>, intG: Graph<int>, vertexMap: map<V, int>, reverseMap: map<int, V>,
                                A: set<Edge<int>>)
    requires Simple(graph) && Numbering(graph.vertices, vertexMap, reverseMap)
    requires forall x :: x in intG.edges ==> exists e :: e in graph.edges && x == Renamed(e, vertexMap)
    requires (forall x :: x in A ==> x in intG.edges) && Ranked(A)
    ensures Restorable(graph, reverseMap, A)
    ensures Ranked(Restored(graph, reverseMap, A))
  {
    var rank: int -> nat :| RanksEdges(A, rank);
    var R := RestoredRank(rank, vertexMap);
    forall x | x in A
      ensures x.source in reverseMap && x.target in reverseMap && Restore(graph, reverseMap, x).Some?
      ensures R(Restore(graph, reverseMap, x).value.source) < R(Restore(graph, reverseMap, x).value.target)
    {
      var e :| e in graph.edges && x == Renamed(e, vertexMap);
      RestoreRenamed(graph, vertexMap, reverseMap, e);
    }
    assert RanksEdges(Restored(graph, reverseMap, A), R);
  }

  /** `getSpanningArborescence` of an arbitrary simple graph: its result consists of edges
      of the graph none of which enters the root and admits a topological numbering, and
      when every vertex can be reached from the root it is a spanning arborescence. A root
      that is not a vertex is numbered 0, which, like the `null` the source passes on,
      equals no vertex number. */
  method GetSpanningArborescence<V(==,!new)>(graph: Graph<V>, root: V,
                                          simpleCycles: (seq<int>, set<Edge<int>>) -> seq<seq<int>>)
    returns (r: Result<set<Edge<V>>, Error>)
    requires Simple(graph)
    requires CycleEnumerator(simpleCycles)
    ensures r.Ok? ==> (forall e :: e in r.value ==> e in graph.edges && e.target != root) && Ranked(r.value)
    ensures AllReachable(graph, root) ==> r.Ok? && SpanningArborescence(graph, root, r.value)
  {
    var ids, vertexMap, reverseMap := NumberVertices(graph.vertices);
    var renamed := RenameEdges(graph.edges, vertexMap);
    var intG := Graph(ids, renamed);
    var intRoot := if root in vertexMap then vertexMap[root] else 0;
    RenumberedSimple(graph, intG, vertexMap, reverseMap);
    ghost var cuts := AllReachable(graph, root);
    if cuts {
      ReachableGivesCuts(graph, root);
      if graph.vertices == [] {
        EmptyGraphCuts(intG, intRoot);
      } else {
        CutsHoldRoot(graph, root);
        RenumberedCuts(graph, intG, vertexMap, reverseMap, root);
      }
    }
    var intArb := IntegerGetSpanningArborescence(intG, intRoot, simpleCycles);
    if intArb.Err? {
      return Err(intArb.error);
    }
    RestoredEdgesInGraph(graph, intG, vertexMap, reverseMap, root, intRoot, intArb.value);
    RestoredRanked(graph, intG, vertexMap, reverseMap, intArb.value);
    var edges := RestoreEdges(graph, reverseMap, intArb.value);
    if cuts && graph.vertices != [] {
      RestoredOneEdgeIntoEach(graph, intG, vertexMap, reverseMap, root, intArb.value);
      RankedIsSpanning(graph, root, edges);
    }
    if cuts && graph.vertices == [] {
      RestoredArborescenceOfEmpty(graph, root, edges);
    }
    return Ok(edges);
  }

  /** A graph without vertices has no edges, so the empty edge set spans it. */
  lemma RestoredArborescenceOfEmpty<V(!new)>(graph: Graph<V>, root: V, A: set<Edge<V>>)
    requires Simple(graph) && graph.vertices == [] && Ranked(A)
    requires forall e :: e in A ==> e in graph.edges
    ensures SpanningArborescence(graph, root, A)
  {
  }
}
