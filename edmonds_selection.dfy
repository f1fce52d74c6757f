/** The first two steps of one level of the integer arborescence finder
    (`IntegerEdmondsMinimumSpanningArborescenceFinder`): the cheapest incoming edge of
    every vertex (the P-edges), the lookup of the P-edge into a vertex, and the choice
    of a cycle among the P-edges. */
module EdmondsSelection {
  import opened Outcomes
  import opened Minimum
  import opened Digraph

  /** The runtime exceptions the finder raises. */
  datatype Error =
    | NonUniqueIncomingEdge   // "Non unique incomming egde to vertex"
    | NonUniqueEdgeIntoCycle  // "Non unique edge incomming to cycle"
    | NoCycleSplittingVertex  // "No cycle splittingVertex"

  /** The edge `findPEdges` keeps for `v`: the first edge of least weight among the edges
      into `v`, in the graph's edge order. */
  function CheapestInto(g: Graph<int>, v: int): Option<Edge<int>> {
    FirstMin(EdgesInto(g.edges, v), Weight)
  }

  /** The kept edge enters `v`, has the least weight of all edges into `v`, and every edge
      into `v` listed before it is strictly heavier; there is none only when no edge
      enters `v`. */
  lemma CheapestIntoIsFirstCheapest(g: Graph<int>, v: int)
    ensures CheapestInto(g, v).None? <==> forall e :: e in g.edges ==> e.target != v
    ensures CheapestInto(g, v).Some? ==>
      var m := CheapestInto(g, v).value;
      && m in g.edges && m.target == v
      && (forall e :: e in g.edges && e.target == v ==> m.weight <= e.weight)
      && exists k :: IsFirstMinimum(EdgesInto(g.edges, v), k, Weight) && EdgesInto(g.edges, v)[k] == m
  {
    var into := EdgesInto(g.edges, v);
    if into == [] {
      forall e | e in g.edges ensures e.target != v {
        assert e !in into;
      }
    } else {
      assert into[0] in g.edges && into[0].target == v;
      FirstMinIsFirstMinimum(into, Weight);
      forall e | e in g.edges && e.target == v
        ensures CheapestInto(g, v).value.weight <= e.weight
      {
        FirstMinIsLeast(into, Weight, e);
      }
    }
  }

  /** `findPEdges`: for every vertex other than the root that has an incoming edge, its
      first cheapest incoming edge; nothing for the root or for a vertex without one. */
  method FindPEdges(g: Graph<int>, root: int) returns (p: set<Edge<int>>)
    ensures forall e :: e in p <==> e.target in g.vertices && e.target != root && CheapestInto(g, e.target) == Some(e)
  {
    p := {};
    for i := 0 to |g.vertices|
      invariant forall e :: e in p <==> e.target in g.vertices[..i] && e.target != root && CheapestInto(g, e.target) == Some(e)
    {
      var v := g.vertices[i];
      assert g.vertices[..i + 1] == g.vertices[..i] + [v];
      if v != root {
        var incoming := EdgesInto(g.edges, v);
        var min: Option<Edge<int>> := None;
        var minWeight := 0;  // the source seeds Double.MAX_VALUE; it is never read while min is null
        for j := 0 to |incoming|
          invariant min == FirstMin(incoming[..j], Weight)
          invariant min.Some? ==> minWeight == min.value.weight
        {
          assert incoming[..j + 1][..j] == incoming[..j];
          var eWeight := incoming[j].weight;
          if min.None? || eWeight < minWeight {
            min := Some(incoming[j]);
            minWeight := eWeight;
          }
        }
        assert incoming[..|incoming|] == incoming;
        if min.Some? {
          assert min.value in incoming;
          p := p + {min.value};
        }
      }
    }
    assert g.vertices[..|g.vertices|] == g.vertices;
  }

  /** No two edges of `p` enter the same vertex. */
  ghost predicate OnePerTarget(p: set<Edge<int>>) {
    forall e1, e2 :: e1 in p && e2 in p && e1.target == e2.target ==> e1 == e2
  }

  /** The P-edges hold at most one edge into each vertex, so `findIncomming` never throws
      on them. */
  lemma PEdgesOnePerTarget(g: Graph<int>, root: int, p: set<Edge<int>>)
    requires forall e :: e in p <==> e.target in g.vertices && e.target != root && CheapestInto(g, e.target) == Some(e)
    ensures OnePerTarget(p)
  {
  }

  /** `findIncomming`: the edge of `p` into `v`, `None` when there is none, and an error
      when two edges of `p` enter `v`. */
  method FindIncoming(p: set<Edge<int>>, v: int) returns (r: Result<Option<Edge<int>>, Error>)
    ensures r.Err? <==> exists e1, e2 :: e1 in p && e2 in p && e1 != e2 && e1.target == v && e2.target == v
    ensures r.Err? ==> r.error == NonUniqueIncomingEdge
    ensures r == Ok(None) <==> forall e :: e in p ==> e.target != v
    ensures r.Ok? && r.value.Some? ==>
      && r.value.value in p && r.value.value.target == v
      && forall e :: e in p && e.target == v ==> e == r.value.value
  {
    var edge: Option<Edge<int>> := None;
    var rest := p;
    while rest != {}
      invariant rest <= p
      invariant edge.None? ==> forall e :: e in p - rest ==> e.target != v
      invariant edge.Some? ==> edge.value in p - rest && edge.value.target == v
      invariant edge.Some? ==> forall e :: e in p - rest && e.target == v ==> e == edge.value
      decreases |rest|
    {
      var e :| e in rest;
      if e.target == v {
        if edge.Some? {
          return Err(NonUniqueIncomingEdge);
        }
        edge := Some(e);
      }
      rest := rest - {e};
    }
    return Ok(edge);
  }

  /** `c` lists, in edge order, the distinct vertices of a cycle of `p` over the vertices
      `vs`: each vertex is joined to the next one and the last to the first. */
  ghost predicate IsCycleOf(vs: seq<int>, p: set<Edge<int>>, c: seq<int>) {
    && |c| >= 2 && Distinct(c)
    && (forall i :: 0 <= i < |c| ==> c[i] in vs)
    && (forall i :: 0 <= i < |c| - 1 ==> Joined(p, c[i], c[i + 1]))
    && Joined(p, c[|c| - 1], c[0])
  }

  ghost predicate Acyclic(vs: seq<int>, p: set<Edge<int>>) {
    forall c {:trigger IsCycleOf(vs, p, c)} :: !IsCycleOf(vs, p, c)
  }

  /** What `TarjanSimpleCycles.findSimpleCycles` returns for the graph with vertices `vs`
      and edges `p`: simple cycles only, and at least one whenever a cycle exists. */
  ghost predicate CycleEnumerator(simpleCycles: (seq<int>, set<Edge<int>>) -> seq<seq<int>>) {
    forall vs, p {:trigger simpleCycles(vs, p)} ::
      && (forall c :: c in simpleCycles(vs, p) ==> IsCycleOf(vs, p, c))
      && (simpleCycles(vs, p) == [] <==> Acyclic(vs, p))
  }

  /** `getArbitraryCycle`: `None` exactly when the P-graph is acyclic, otherwise the first
      cycle of greatest length among the simple cycles the enumerator lists. */
  method GetArbitraryCycle(g: Graph<int>, p: set<Edge<int>>,
                           simpleCycles: (seq<int>, set<Edge<int>>) -> seq<seq<int>>)
    returns (r: Option<seq<int>>)
    requires CycleEnumerator(simpleCycles)
    ensures r.None? <==> Acyclic(g.vertices, p)
    ensures r.Some? ==> IsCycleOf(g.vertices, p, r.value)
    ensures r.Some? ==>
      var cs := simpleCycles(g.vertices, p);
      exists k :: && 0 <= k < |cs| && cs[k] == r.value
                  && (forall i :: 0 <= i < |cs| ==> |cs[i]| <= |cs[k]|)
                  && (forall i :: 0 <= i < k ==> |cs[i]| < |cs[k]|)
  {
    var cycles := simpleCycles(g.vertices, p);
    if cycles == [] {
      return None;
    }
    var maxCycle: Option<seq<int>> := None;
    var maxSize := 0;
    ghost var k := -1;
    for i := 0 to |cycles|
      invariant maxCycle.None? ==> maxSize == 0 && forall j :: 0 <= j < i ==> |cycles[j]| == 0
      invariant maxCycle.Some? ==> && 0 <= k < i && maxCycle.value == cycles[k] && maxSize == |cycles[k]| > 0
                                   && (forall j :: 0 <= j < i ==> |cycles[j]| <= maxSize)
                                   && (forall j :: 0 <= j < k ==> |cycles[j]| < maxSize)
    {
      if |cycles[i]| > maxSize {
        maxCycle := Some(cycles[i]);
        maxSize := |cycles[i]|;
        k := i;
      }
    }
    assert IsCycleOf(g.vertices, p, cycles[0]);
    return maxCycle;
  }
}
