/** `GraphKeeper`: the list-based contraction helper. A graph of vertex keepers and edge
    keepers, changed in place by its methods, with a depth-first cycle search, cycle
    contraction with a provenance map, and expansion of a contracted result. */
module GraphKeepers {
  import opened Outcomes
  import opened Digraph
  import opened Minimum
  import opened KeeperLists
  import opened KeeperCycles
  import opened KeeperContraction

  /** What `shrinkCycle` builds: the new vertex list (the composite last), the new edge
      list, and the filled `edgesMap` from each new edge to the edge it stands for. */
  datatype Contracted<V(==)> = Contracted(vertices: seq<VertexKeeper<V>>, edges: seq<EdgeKeeper<V>>,
                                          edgesMap: map<EdgeKeeper<V>, EdgeKeeper<V>>)

  class GraphKeeper<V(==)> {
    var vertices: seq<VertexKeeper<V>>
    var edges: seq<EdgeKeeper<V>>
    var vertexMap: map<V, VertexKeeper<V>>

    /** The public constructor: one fresh keeper per item, in order; a map from each item
        to a keeper of that item alone; and one edge keeper per input edge, between its
        endpoints' keepers and with the edge's weight. */
    constructor (items: seq<V>, es: seq<Edge<V>>)
      requires forall e :: e in es ==> e.source in items && e.target in items
      ensures |vertices| == |items| && Distinct(vertices)
      ensures forall i :: 0 <= i < |items| ==> fresh(vertices[i]) && vertices[i].members == [items[i]]
      ensures forall x :: x in vertexMap <==> x in items
      ensures forall x :: x in vertexMap ==> vertexMap[x] in vertices && vertexMap[x].members == [x]
      ensures |edges| == |es|
      ensures forall i :: 0 <= i < |es| ==>
        edges[i] == EdgeKeeper(vertexMap[es[i].source], vertexMap[es[i].target], es[i].weight, es[i])
    {
      var vs: seq<VertexKeeper<V>> := [];
      var m: map<V, VertexKeeper<V>> := map[];
      var i := 0;
      while i < |items|
        invariant 0 <= i <= |items| && |vs| == i && Distinct(vs)
        invariant forall k :: 0 <= k < i ==> fresh(vs[k]) && vs[k].members == [items[k]]
        invariant forall x :: x in m <==> x in items[..i]
        invariant forall x :: x in m ==> m[x] in vs && m[x].members == [x]
      {
        var vk := new VertexKeeper([items[i]]);
        m := m[items[i] := vk];
        vs := vs + [vk];
        assert items[..i + 1] == items[..i] + [items[i]];
        i := i + 1;
      }
      assert items[..i] == items;
      var ks: seq<EdgeKeeper<V>> := [];
      var j := 0;
      while j < |es|
        invariant 0 <= j <= |es| && |ks| == j
        invariant forall t :: 0 <= t < j ==> ks[t] == EdgeKeeper(m[es[t].source], m[es[t].target], es[t].weight, es[t])
      {
        assert es[j] in es;
        ks := ks + [EdgeKeeper(m[es[j].source], m[es[j].target], es[j].weight, es[j])];
        j := j + 1;
      }
      vertices := vs;
      vertexMap := m;
      edges := ks;
    }

    /** The private constructor: a copy of the vertex list, and the given map and edges. */
    constructor FromParts(vertices: seq<VertexKeeper<V>>, map_: map<V, VertexKeeper<V>>, edges: seq<EdgeKeeper<V>>)
      ensures this.vertices == vertices && vertexMap == map_ && this.edges == edges
    {
      this.vertices := vertices;
      vertexMap := map_;
      this.edges := edges;
    }

    /** `removeDestinationEdges`: drops exactly the edges into the keeper of `vertex`,
        keeping the order of the others; an unknown vertex has no keeper (the source's
        `null`) and no edge goes into it. */
    method RemoveDestinationEdges(vertex: V)
      modifies this
      ensures vertices == old(vertices) && vertexMap == old(vertexMap)
      ensures vertex in vertexMap ==> edges == Without(old(edges), vertexMap[vertex])
      ensures vertex !in vertexMap ==> edges == old(edges)
    {
      if vertex !in vertexMap {
        return;
      }
      var vv := vertexMap[vertex];
      // The first loop of the source is the scan of `getEdgesTo`.
      var toRemove := GetEdgesTo(vv);
      edges := RemoveAll(edges, toRemove, vv);
    }

    /** The second loop of `removeDestinationEdges`: each collected edge in turn is removed
        from the list (its first occurrence), leaving exactly the edges not into `vv`. */
    static method RemoveAll(orig: seq<EdgeKeeper<V>>, toRemove: seq<EdgeKeeper<V>>, vv: VertexKeeper<V>) returns (es: seq<EdgeKeeper<V>>)
      requires toRemove == EdgesTo(orig, vv)
      ensures es == Without(orig, vv)
    {
      es := orig;
      ghost var k := 0;
      var i := 0;
      while i < |toRemove|
        invariant 0 <= i <= |toRemove| && 0 <= k <= |orig|
        invariant es == Without(orig[..k], vv) + orig[k..]
        invariant EdgesTo(orig[k..], vv) == toRemove[i..]
      {
        ghost var rest := toRemove[i..];
        assert toRemove[i] == rest[0] && rest[1..] == toRemove[i + 1..];
        k := RemoveNextInto(orig, k, vv);
        es := RemoveFirst(es, toRemove[i]);
        i := i + 1;
      }
      WithoutRest(orig, k, vv);
    }

    /** `getEdgesTo`: the edges into `v`, in list order. */
    method GetEdgesTo(v: VertexKeeper<V>) returns (r: seq<EdgeKeeper<V>>)
      ensures r == EdgesTo(edges, v)
    {
      r := [];
      var i := 0;
      while i < |edges|
        invariant 0 <= i <= |edges| && r == EdgesTo(edges[..i], v)
      {
        assert edges[..i + 1][..i] == edges[..i];
        if edges[i].to == v {
          r := r + [edges[i]];
        }
        i := i + 1;
      }
      assert edges[..i] == edges;
    }

    /** `getEdgesFrom`: the edges out of `v`, in list order. */
    method GetEdgesFrom(v: VertexKeeper<V>) returns (r: seq<EdgeKeeper<V>>)
      ensures r == EdgesFrom(edges, v)
    {
      r := [];
      var i := 0;
      while i < |edges|
        invariant 0 <= i <= |edges| && r == EdgesFrom(edges[..i], v)
      {
        assert edges[..i + 1][..i] == edges[..i];
        if edges[i].from == v {
          r := r + [edges[i]];
        }
        i := i + 1;
      }
      assert edges[..i] == edges;
    }

    /** `getSingleInputEdge`: the one edge into `v`; it throws unless there is exactly one. */
    method GetSingleInputEdge(v: VertexKeeper<V>) returns (r: Result<EdgeKeeper<V>, KeeperError>)
      ensures r.Ok? <==> |EdgesTo(edges, v)| == 1
      ensures r.Ok? ==> r.value in edges && r.value.to == v
      ensures r.Ok? ==> forall e :: e in edges && e.to == v ==> e == r.value
    {
      var into := GetEdgesTo(v);
      if |into| != 1 {
        return Err(NotSingleInputEdge);
      }
      assert into[0] in into;
      r := Ok(into[0]);
    }

    /** `takeSmallestWeightEdgesForEachVertex`: a new graph over the same vertex list and
        map holding, for each vertex in order, its first incoming edge of least weight. */
    method TakeSmallestWeightEdgesForEachVertex() returns (g: GraphKeeper<V>)
      ensures fresh(g)
      ensures g.vertices == vertices && g.vertexMap == vertexMap
      ensures g.edges == CheapestEdges(vertices, edges)
    {
      var newEdges := [];
      var i := 0;
      while i < |vertices|
        invariant 0 <= i <= |vertices| && newEdges == CheapestEdges(vertices[..i], edges)
      {
        assert vertices[..i + 1][..i] == vertices[..i];
        var into := GetEdgesTo(vertices[i]);
        var minEdge := FirstCheapest(into);
        if minEdge.Some? {
          newEdges := newEdges + [minEdge.value];
        }
        i := i + 1;
      }
      assert vertices[..i] == vertices;
      g := new GraphKeeper.FromParts(vertices, vertexMap, newEdges);
    }

    /** The inner scan of `takeSmallestWeightEdgesForEachVertex`: a candidate replaced only
        by a strictly lighter edge. */
    static method FirstCheapest(es: seq<EdgeKeeper<V>>) returns (minEdge: Option<EdgeKeeper<V>>)
      ensures minEdge == FirstMin(es, KeeperWeight)
    {
      minEdge := None;
      var j := 0;
      while j < |es|
        invariant 0 <= j <= |es| && minEdge == FirstMin(es[..j], KeeperWeight)
      {
        FirstMinSnoc(es[..j], es[j], KeeperWeight);
        assert es[..j + 1] == es[..j] + [es[j]];
        if minEdge.None? || es[j].weight < minEdge.value.weight {
          minEdge := Some(es[j]);
        }
        j := j + 1;
      }
      assert es[..j] == es;
    }

    /** `findCycle`: tries each vertex in list order as the start of a depth-first search;
        on success it appends the cycle found to the caller's list and answers true, and
        otherwise it leaves the list as it was and no vertex of the graph lies on a cycle.
        The cycle found starts at the first vertex of the list that lies on a cycle. */
    method FindCycle(potentialCycle: seq<VertexKeeper<V>>) returns (found: bool, potentialCycle': seq<VertexKeeper<V>>)
      ensures found ==> |potentialCycle'| > |potentialCycle| && potentialCycle'[..|potentialCycle|] == potentialCycle
      ensures found ==> KeeperCycle(edges, potentialCycle'[|potentialCycle|..]) && potentialCycle'[|potentialCycle|] in vertices
      ensures found ==> (exists i :: 0 <= i < |vertices| && potentialCycle'[|potentialCycle|] == vertices[i] &&
                                     forall j, c :: 0 <= j < i && KeeperCycle(edges, c) ==> c[0] != vertices[j])
      ensures !found ==> potentialCycle' == potentialCycle
      ensures !found ==> forall c :: KeeperCycle(edges, c) ==> c[0] !in vertices
    {
      ghost var es := edges;
      var vs := vertices;
      ghost var finished: seq<set<VertexKeeper<V>>> := [];
      var i := 0;
      while i < |vs|
        invariant 0 <= i <= |vs| && edges == es && vs == vertices && |finished| == i
        invariant forall j :: 0 <= j < i ==> vs[j] in finished[j] && NoWayBack(es, vs[j], finished[j], finished[j])
      {
        var v := vs[i];
        var f, cycle, visited := DfsFindCycle(v, v, [], {}, Nodes(edges, v));
        if f {
          assert KeeperCycle(es, cycle) by {
            assert cycle[0..] == cycle;
          }
          potentialCycle' := potentialCycle;
          var k := 0;
          while k < |cycle|
            invariant 0 <= k <= |cycle| && potentialCycle' == potentialCycle + cycle[..k]
          {
            assert cycle[..k + 1] == cycle[..k] + [cycle[k]];
            potentialCycle' := potentialCycle' + [cycle[k]];
            k := k + 1;
          }
          assert cycle[..k] == cycle;
          assert potentialCycle'[|potentialCycle|..] == cycle;
          forall j, c | 0 <= j < i && KeeperCycle(es, c)
            ensures c[0] != vs[j]
          {
            ClosedRulesOutCycle(es, vs[j], finished[j], c);
          }
          assert potentialCycle'[|potentialCycle|] == vs[i];
          return true, potentialCycle';
        }
        assert visited - {} == visited && edges == es;
        finished := finished + [visited];
        i := i + 1;
      }
      forall c | KeeperCycle(es, c)
        ensures c[0] !in vs
      {
        forall j | 0 <= j < |vs|
          ensures c[0] != vs[j]
        {
          ClosedRulesOutCycle(es, vs[j], finished[j], c);
        }
      }
      return false, potentialCycle;
    }

    /** `dfsFindCycle`: a depth-first search from `current` for an edge back to `start`,
        along the path `cycle` and avoiding the `visited` vertices. On success the path
        is extended by a walk from `current` whose last vertex has an edge to `start`;
        on failure the path is as it was and every newly visited vertex has all its
        successors visited and no edge to `start`. */
    method DfsFindCycle(start: VertexKeeper<V>, current: VertexKeeper<V>, cycle: seq<VertexKeeper<V>>, visited: set<VertexKeeper<V>>,
                        ghost nodes: set<VertexKeeper<V>>)
      returns (found: bool, cycle': seq<VertexKeeper<V>>, visited': set<VertexKeeper<V>>)
      requires (forall k :: 0 <= k < |edges| ==> edges[k].to in nodes) && current in nodes && current !in visited
      requires forall k :: 0 <= k < |cycle| ==> cycle[k] in visited
      ensures visited + {current} <= visited'
      ensures found ==> Extends(edges, start, cycle, current, cycle')
      ensures !found ==> cycle' == cycle
      ensures !found ==> NoWayBack(edges, start, visited' - visited, visited')
      decreases |nodes - visited|
    {
      ghost var es := edges;
      visited' := visited + {current};
      cycle' := cycle + [current];
      found := false;
      var out := GetEdgesFrom(current);
      var i := 0;
      while i < |out|
        invariant 0 <= i <= |out| && !found
        invariant visited + {current} <= visited'
        invariant forall k :: 0 <= k < |cycle'| ==> cycle'[k] in visited'
        invariant forall j :: 0 <= j < i ==> out[j].to in visited' && out[j].to != start
        invariant NoWayBack(es, start, visited' - visited - {current}, visited')
      {
        var vv := out[i].to;
        if vv == start {
          FoundHere(es, start, cycle, current, out[i]);
          found := true;
          break;
        }
        if vv !in visited' {
          VisitShrinks(nodes, visited, visited', current);
          var f, c2, v2 := DfsFindCycle(start, vv, cycle', visited', nodes);
          assert edges == es;
          if f {
            assert Joins(es, current, vv);
            ChildFound(es, start, cycle, current, vv, c2);
            found, cycle', visited' := true, c2, v2;
            break;
          }
          ChildFinished(es, start, visited, current, visited', v2);
          visited' := v2;
        }
        i := i + 1;
      }
      if !found {
        OutEdgesFollowed(es, start, current, out, visited');
        CurrentFinished(es, start, visited, current, visited');
        RemoveFirstAppend(cycle, [current], current);
        cycle' := RemoveFirst(cycle', current);
      }
    }

    /** `shrinkCycle`: contracts `cycle` into one fresh composite keeper holding the members
        of the cycle's keepers. The vertices off the cycle keep their order and the composite
        comes last; the edges are rebuilt by the contraction rules, each recorded in the map
        against the edge it stands for. It throws when an edge enters the cycle at a vertex
        that the cheapest-edge graph `p` does not enter exactly once. (`root` is not used.) */
    method ShrinkCycle(cycle: seq<VertexKeeper<V>>, p: GraphKeeper<V>, root: V) returns (r: Result<Contracted<V>, KeeperError>)
      ensures r.Err? <==> Unmatched(edges, cycle, p.edges)
      ensures r.Ok? ==> |r.value.vertices| > 0
      ensures r.Ok? ==> var cv := r.value.vertices[|r.value.vertices| - 1];
        && fresh(cv) && cv.members == CycleMembers(cycle)
        && r.value.vertices == OutsideCycle(vertices, cycle) + [cv]
        && FreshComposite(edges, cycle, cv)
        && ShrinkEdges(edges, cycle, cv, p.edges) == Ok(Shrunk(r.value.edges, r.value.edgesMap))
    {
      var newVertices := [];
      var i := 0;
      while i < |vertices|
        invariant 0 <= i <= |vertices| && newVertices == OutsideCycle(vertices[..i], cycle)
      {
        assert vertices[..i + 1][..i] == vertices[..i];
        if vertices[i] !in cycle {
          newVertices := newVertices + [vertices[i]];
        }
        i := i + 1;
      }
      assert vertices[..i] == vertices;
      var members := [];
      var j := 0;
      while j < |cycle|
        invariant 0 <= j <= |cycle| && members == CycleMembers(cycle[..j])
      {
        assert cycle[..j + 1][..j] == cycle[..j];
        members := members + cycle[j].members;
        j := j + 1;
      }
      assert cycle[..j] == cycle;
      var cv := new VertexKeeper(members);
      newVertices := newVertices + [cv];
      var shrunk := ShrinkEdgeList(edges, cycle, cv, p);
      ShrinkEdgesFails(edges, cycle, cv, p.edges);
      if shrunk.Err? {
        return Err(shrunk.error);
      }
      r := Ok(Contracted(newVertices, shrunk.value.edges, shrunk.value.origin));
    }

    /** The edge loop of `shrinkCycle`, one `ShrinkStep` per edge in list order. */
    static method ShrinkEdgeList(es: seq<EdgeKeeper<V>>, cycle: seq<VertexKeeper<V>>, cv: VertexKeeper<V>, p: GraphKeeper<V>)
      returns (r: Result<Shrunk<V>, KeeperError>)
      ensures r == ShrinkEdges(es, cycle, cv, p.edges)
    {
      var newEdges := [];
      var edgesMap := map[];
      var i := 0;
      while i < |es|
        invariant 0 <= i <= |es| && ShrinkEdges(es[..i], cycle, cv, p.edges) == Ok(Shrunk(newEdges, edgesMap))
      {
        assert es[..i + 1][..i] == es[..i];
        var e := es[i];
        if e.from !in cycle && e.to in cycle {
          var into := p.GetEdgesTo(e.to);
          if |into| != 1 {
            assert Entering(es[i], cycle) && |EdgesTo(p.edges, es[i].to)| != 1;
            assert Unmatched(es, cycle, p.edges);
            ShrinkEdgesFails(es, cycle, cv, p.edges);
            assert ShrinkEdges(es, cycle, cv, p.edges).Err?;
            assert ShrinkEdges(es, cycle, cv, p.edges).error == NotSingleInputEdge;
            return Err(NotSingleInputEdge);
          }
          var joined := HasJoin(newEdges, e.from, cv);
          if !joined {
            var ne := EdgeKeeper(e.from, cv, e.weight - into[0].weight, e.edge);
            newEdges := newEdges + [ne];
            edgesMap := edgesMap[ne := e];
          }
        } else if e.from in cycle && e.to !in cycle {
          var joined := HasJoin(newEdges, cv, e.to);
          if !joined {
            var ne := EdgeKeeper(cv, e.to, e.weight, e.edge);
            newEdges := newEdges + [ne];
            edgesMap := edgesMap[ne := e];
          }
        } else if e.from !in cycle && e.to !in cycle {
          var ne := EdgeKeeper(e.from, e.to, e.weight, e.edge);
          newEdges := newEdges + [ne];
          edgesMap := edgesMap[ne := e];
        }
        i := i + 1;
      }
      assert es[..i] == es;
      r := Ok(Shrunk(newEdges, edgesMap));
    }

    /** The duplicate scan of `shrinkCycle`: whether some new edge already joins `a` to `b`. */
    static method HasJoin(es: seq<EdgeKeeper<V>>, a: VertexKeeper<V>, b: VertexKeeper<V>) returns (joined: bool)
      ensures joined <==> Joins(es, a, b)
    {
      joined := false;
      var i := 0;
      while i < |es|
        invariant 0 <= i <= |es|
        invariant joined <==> exists k :: 0 <= k < i && es[k].from == a && es[k].to == b
      {
        if es[i].from == a && es[i].to == b {
          joined := true;
        }
        i := i + 1;
      }
    }

    /** `markEdges`: replaces the edges by the images under `recursiveMap` of the edges of
        the contracted result, followed by, for each vertex `cv != v` in list order, the
        edges into `cv` from the vertex before it (from the cycle's last vertex for the
        first one). */
    method MarkEdges(recursiveResult: GraphKeeper<V>, recursiveMap: map<EdgeKeeper<V>, EdgeKeeper<V>>,
                     cycle: seq<VertexKeeper<V>>, v: VertexKeeper<V>)
      requires |cycle| > 0
      requires forall k :: 0 <= k < |recursiveResult.edges| ==> recursiveResult.edges[k] in recursiveMap
      modifies this
      ensures vertices == old(vertices) && vertexMap == old(vertexMap)
      ensures edges == Images(old(recursiveResult.edges), recursiveMap)
                       + ClosingEdges(vertices, old(edges), cycle[|cycle| - 1], v)
    {
      var newEdges := ExpandedEdges(recursiveResult, recursiveMap, cycle, v);
      edges := newEdges;
    }

    /** The two loops of `markEdges`, before the edge list is replaced. */
    method ExpandedEdges(recursiveResult: GraphKeeper<V>, recursiveMap: map<EdgeKeeper<V>, EdgeKeeper<V>>,
                         cycle: seq<VertexKeeper<V>>, v: VertexKeeper<V>) returns (newEdges: seq<EdgeKeeper<V>>)
      requires |cycle| > 0
      requires forall k :: 0 <= k < |recursiveResult.edges| ==> recursiveResult.edges[k] in recursiveMap
      ensures newEdges == Images(recursiveResult.edges, recursiveMap)
                          + ClosingEdges(vertices, edges, cycle[|cycle| - 1], v)
    {
      var images := ImagesOf(recursiveResult.edges, recursiveMap);
      var prev0 := cycle[|cycle| - 1];
      var prev := prev0;
      var closing := [];
      var i := 0;
      while i < |vertices|
        invariant 0 <= i <= |vertices| && closing == ClosingEdges(vertices[..i], edges, prev0, v)
        invariant prev == if i == 0 then prev0 else vertices[i - 1]
      {
        var cv := vertices[i];
        assert vertices[..i + 1][..i] == vertices[..i];
        assert Predecessor(vertices[..i + 1], prev0, i) == prev;
        if cv != v {
          var into := GetEdgesTo(cv);
          var fromPrev := EdgesFromAmong(into, prev);
          closing := closing + fromPrev;
        }
        prev := cv;
        i := i + 1;
      }
      assert vertices[..i] == vertices;
      newEdges := images + closing;
    }

    /** The first loop of `markEdges`: the image of each edge, in order. */
    static method ImagesOf(es: seq<EdgeKeeper<V>>, m: map<EdgeKeeper<V>, EdgeKeeper<V>>) returns (r: seq<EdgeKeeper<V>>)
      requires forall k :: 0 <= k < |es| ==> es[k] in m
      ensures r == Images(es, m)
    {
      r := [];
      var i := 0;
      while i < |es|
        invariant 0 <= i <= |es| && r == Images(es[..i], m)
      {
        assert es[..i + 1][..i] == es[..i];
        r := r + [m[es[i]]];
        i := i + 1;
      }
      assert es[..i] == es;
    }

    /** The inner scan of `markEdges`: the edges of `es` out of `prev`, in order. */
    static method EdgesFromAmong(es: seq<EdgeKeeper<V>>, prev: VertexKeeper<V>) returns (r: seq<EdgeKeeper<V>>)
      ensures r == EdgesFrom(es, prev)
    {
      r := [];
      var i := 0;
      while i < |es|
        invariant 0 <= i <= |es| && r == EdgesFrom(es[..i], prev)
      {
        assert es[..i + 1][..i] == es[..i];
        if es[i].from == prev {
          r := r + [es[i]];
        }
        i := i + 1;
      }
      assert es[..i] == es;
    }
  }
}
