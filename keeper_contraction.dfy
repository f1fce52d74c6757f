/** The contraction and expansion rules of `GraphKeeper`: the vertex and edge lists
    `shrinkCycle` builds when it contracts a cycle into one composite keeper, and the
    edge list `markEdges` rebuilds from a contracted result. */
module KeeperContraction {
  import opened Outcomes
  import opened KeeperLists
  import opened KeeperCycles

  /** The vertices of `vs` not on `cycle`, in order. */
  function OutsideCycle<V>(vs: seq<VertexKeeper<V>>, cycle: seq<VertexKeeper<V>>): (r: seq<VertexKeeper<V>>)
    ensures forall v :: v in r ==> v in vs && v !in cycle
    ensures forall v :: v in vs && v !in cycle ==> v in r
  {
    if vs == [] then []
    else OutsideCycle(vs[..|vs| - 1], cycle) + (if vs[|vs| - 1] !in cycle then [vs[|vs| - 1]] else [])
  }

  /** The members of the composite keeper: the members of the cycle's keepers, in order. */
  function CycleMembers<V>(cycle: seq<VertexKeeper<V>>): (r: seq<V>)
    ensures forall i, x :: 0 <= i < |cycle| && x in cycle[i].members ==> x in r
  {
    if cycle == [] then []
    else
      var r := CycleMembers(cycle[..|cycle| - 1]) + cycle[|cycle| - 1].members;
      assert forall i :: 0 <= i < |cycle| - 1 ==> cycle[..|cycle| - 1][i] == cycle[i];
      r
  }

  /** Every member of the composite comes from a keeper of the cycle. */
  lemma {:induction false} CycleMembersFrom<V>(cycle: seq<VertexKeeper<V>>, x: V)
    requires x in CycleMembers(cycle)
    ensures exists i :: 0 <= i < |cycle| && x in cycle[i].members
    decreases |cycle|
  {
    var n := |cycle| - 1;
    if x !in cycle[n].members {
      CycleMembersFrom(cycle[..n], x);
      var i :| 0 <= i < n && x in cycle[..n][i].members;
      assert cycle[..n][i] == cycle[i];
    }
  }

  /** `e` enters the cycle from outside. */
  predicate Entering<V>(e: EdgeKeeper<V>, cycle: seq<VertexKeeper<V>>) {
    e.from !in cycle && e.to in cycle
  }

  /** `e` leaves the cycle. */
  predicate Leaving<V>(e: EdgeKeeper<V>, cycle: seq<VertexKeeper<V>>) {
    e.from in cycle && e.to !in cycle
  }

  /** `e` has no endpoint on the cycle. */
  predicate Outside<V>(e: EdgeKeeper<V>, cycle: seq<VertexKeeper<V>>) {
    e.from !in cycle && e.to !in cycle
  }

  /** The edge loop's state: the new edges so far, and `edgesMap`, from each new edge to
      the edge it stands for. */
  datatype Shrunk<V(==)> = Shrunk(edges: seq<EdgeKeeper<V>>, origin: map<EdgeKeeper<V>, EdgeKeeper<V>>)

  /** One pass of the edge loop of `shrinkCycle` over the edge `e`, with `cv` the composite
      and `pEdges` the edges of the cheapest-edge graph `p`. An entering edge needs exactly
      one `p` edge into its target (else the loop throws) and becomes `u -> cv` re-weighted
      by that edge's weight, unless an edge `u -> cv` is already there; a leaving edge
      becomes `cv -> t` unless one is already there; an edge outside the cycle is copied;
      an edge inside the cycle is dropped. */
  ghost function ShrinkStep<V>(st: Shrunk<V>, e: EdgeKeeper<V>, cycle: seq<VertexKeeper<V>>, cv: VertexKeeper<V>,
                                   pEdges: seq<EdgeKeeper<V>>): Result<Shrunk<V>, KeeperError> {
    if Entering(e, cycle) then
      var into := EdgesTo(pEdges, e.to);
      if |into| != 1 then Err(NotSingleInputEdge)
      else if Joins(st.edges, e.from, cv) then Ok(st)
      else
        var ne := EdgeKeeper(e.from, cv, e.weight - into[0].weight, e.edge);
        Ok(Shrunk(st.edges + [ne], st.origin[ne := e]))
    else if Leaving(e, cycle) then
      if Joins(st.edges, cv, e.to) then Ok(st)
      else
        var ne := EdgeKeeper(cv, e.to, e.weight, e.edge);
        Ok(Shrunk(st.edges + [ne], st.origin[ne := e]))
    else if Outside(e, cycle) then
      var ne := EdgeKeeper(e.from, e.to, e.weight, e.edge);
      Ok(Shrunk(st.edges + [ne], st.origin[ne := e]))
    else
      Ok(st)
  }

  /** The whole edge loop of `shrinkCycle` over `es`, from an empty list and a cleared map. */
  ghost function ShrinkEdges<V>(es: seq<EdgeKeeper<V>>, cycle: seq<VertexKeeper<V>>, cv: VertexKeeper<V>,
                                    pEdges: seq<EdgeKeeper<V>>): Result<Shrunk<V>, KeeperError> {
    if es == [] then Ok(Shrunk([], map[]))
    else
      match ShrinkEdges(es[..|es| - 1], cycle, cv, pEdges)
      case Err(err) => Err(err)
      case Ok(st) => ShrinkStep(st, es[|es| - 1], cycle, cv, pEdges)
  }

  /** Some edge of `es` enters the cycle at a vertex that `p` does not enter exactly once. */
  ghost predicate Unmatched<V>(es: seq<EdgeKeeper<V>>, cycle: seq<VertexKeeper<V>>, pEdges: seq<EdgeKeeper<V>>) {
    exists k :: 0 <= k < |es| && Entering(es[k], cycle) && |EdgesTo(pEdges, es[k].to)| != 1
  }

  /** One pass throws exactly on an entering edge whose target has not exactly one `p` edge. */
  lemma ShrinkStepFails<V>(st: Shrunk<V>, e: EdgeKeeper<V>, cycle: seq<VertexKeeper<V>>, cv: VertexKeeper<V>,
                           pEdges: seq<EdgeKeeper<V>>)
    ensures ShrinkStep(st, e, cycle, cv, pEdges).Err? <==> Entering(e, cycle) && |EdgesTo(pEdges, e.to)| != 1
  {
  }

  lemma UnmatchedSnoc<V>(es: seq<EdgeKeeper<V>>, cycle: seq<VertexKeeper<V>>, pEdges: seq<EdgeKeeper<V>>)
    requires es != []
    ensures Unmatched(es, cycle, pEdges) <==>
      Unmatched(es[..|es| - 1], cycle, pEdges) || (Entering(es[|es| - 1], cycle) && |EdgesTo(pEdges, es[|es| - 1].to)| != 1)
  {
    var n := |es| - 1;
    if Unmatched(es[..n], cycle, pEdges) {
      var k :| 0 <= k < n && Entering(es[..n][k], cycle) && |EdgesTo(pEdges, es[..n][k].to)| != 1;
      assert es[k] == es[..n][k];
    }
    if Unmatched(es, cycle, pEdges) {
      var k :| 0 <= k < |es| && Entering(es[k], cycle) && |EdgesTo(pEdges, es[k].to)| != 1;
      if k < n {
        assert es[..n][k] == es[k];
      }
    }
  }

  /** The loop throws exactly when some entering edge's target has not exactly one `p` edge. */
  lemma {:induction false} ShrinkEdgesFails<V>(es: seq<EdgeKeeper<V>>, cycle: seq<VertexKeeper<V>>, cv: VertexKeeper<V>,
                                                   pEdges: seq<EdgeKeeper<V>>)
    ensures ShrinkEdges(es, cycle, cv, pEdges).Err? <==> Unmatched(es, cycle, pEdges)
    decreases |es|
  {
    if es != [] {
      var n := |es| - 1;
      ShrinkEdgesFails(es[..n], cycle, cv, pEdges);
      UnmatchedSnoc(es, cycle, pEdges);
      if ShrinkEdges(es[..n], cycle, cv, pEdges).Ok? {
        ShrinkStepFails(ShrinkEdges(es[..n], cycle, cv, pEdges).value, es[n], cycle, cv, pEdges);
      }
    }
  }

  /** `ne` is the new edge `shrinkCycle` makes for the edge `o`. */
  ghost predicate Shrinks<V>(o: EdgeKeeper<V>, ne: EdgeKeeper<V>, cycle: seq<VertexKeeper<V>>, cv: VertexKeeper<V>,
                             pEdges: seq<EdgeKeeper<V>>) {
    && ne.edge == o.edge
    && (Entering(o, cycle) ==>
          ne.from == o.from && ne.to == cv && |EdgesTo(pEdges, o.to)| == 1
          && ne.weight == o.weight - EdgesTo(pEdges, o.to)[0].weight)
    && (Leaving(o, cycle) ==> ne.from == cv && ne.to == o.to && ne.weight == o.weight)
    && (Outside(o, cycle) ==> ne == o)
    && (Entering(o, cycle) || Leaving(o, cycle) || Outside(o, cycle))
  }

  /** The composite is new: no edge of `es` touches it and it is not on the cycle. */
  ghost predicate FreshComposite<V>(es: seq<EdgeKeeper<V>>, cycle: seq<VertexKeeper<V>>, cv: VertexKeeper<V>) {
    cv !in cycle && forall k :: 0 <= k < |es| ==> es[k].from != cv && es[k].to != cv
  }

  /** Every new edge is recorded in the map, against an edge of `es` it is made from. */
  ghost predicate Traced<V>(st: Shrunk<V>, es: seq<EdgeKeeper<V>>, cycle: seq<VertexKeeper<V>>, cv: VertexKeeper<V>,
                            pEdges: seq<EdgeKeeper<V>>) {
    && (forall k :: 0 <= k < |st.edges| ==> st.edges[k] in st.origin)
    && (forall ne :: ne in st.origin ==> st.origin[ne] in es && Shrinks(st.origin[ne], ne, cycle, cv, pEdges))
  }

  lemma TracedGrows<V>(st: Shrunk<V>, es: seq<EdgeKeeper<V>>, es': seq<EdgeKeeper<V>>, cycle: seq<VertexKeeper<V>>,
                       cv: VertexKeeper<V>, pEdges: seq<EdgeKeeper<V>>)
    requires Traced(st, es, cycle, cv, pEdges) && forall e :: e in es ==> e in es'
    ensures Traced(st, es', cycle, cv, pEdges)
  {
  }

  /** Each new edge stands for an edge of `es` by the contraction rules. */
  lemma {:induction false} ShrinkEdgesTraced<V>(es: seq<EdgeKeeper<V>>, cycle: seq<VertexKeeper<V>>, cv: VertexKeeper<V>,
                                                    pEdges: seq<EdgeKeeper<V>>)
    requires ShrinkEdges(es, cycle, cv, pEdges).Ok?
    ensures Traced(ShrinkEdges(es, cycle, cv, pEdges).value, es, cycle, cv, pEdges)
    decreases |es|
  {
    if es != [] {
      var n := |es| - 1;
      ShrinkEdgesTraced(es[..n], cycle, cv, pEdges);
      var st := ShrinkEdges(es[..n], cycle, cv, pEdges).value;
      assert forall e :: e in es[..n] ==> e in es;
      TracedGrows(st, es[..n], es, cycle, cv, pEdges);
    }
  }

  /** Each edge leaving or outside the cycle, and the source of each edge entering it, is
      represented in the contracted edge list. */
  lemma {:induction false} ShrinkEdgesCovers<V>(es: seq<EdgeKeeper<V>>, cycle: seq<VertexKeeper<V>>, cv: VertexKeeper<V>,
                                                    pEdges: seq<EdgeKeeper<V>>, k: nat)
    requires ShrinkEdges(es, cycle, cv, pEdges).Ok? && k < |es|
    ensures var r := ShrinkEdges(es, cycle, cv, pEdges).value.edges;
      && (Entering(es[k], cycle) ==> Joins(r, es[k].from, cv))
      && (Leaving(es[k], cycle) ==> Joins(r, cv, es[k].to))
      && (Outside(es[k], cycle) ==> es[k] in r)
    decreases |es|
  {
    var n := |es| - 1;
    var st := ShrinkEdges(es[..n], cycle, cv, pEdges).value;
    var r := ShrinkEdges(es, cycle, cv, pEdges).value.edges;
    assert forall a, b :: Joins(st.edges, a, b) ==> Joins(r, a, b) by {
      forall a, b | Joins(st.edges, a, b)
        ensures Joins(r, a, b)
      {
        var i :| 0 <= i < |st.edges| && st.edges[i].from == a && st.edges[i].to == b;
        assert r[i] == st.edges[i];
      }
    }
    if k < n {
      ShrinkEdgesCovers(es[..n], cycle, cv, pEdges, k);
      assert es[..n][k] == es[k];
    } else {
      var e := es[n];
      if Entering(e, cycle) && !Joins(st.edges, e.from, cv) {
        assert r[|r| - 1].from == e.from && r[|r| - 1].to == cv;
      } else if Leaving(e, cycle) && !Joins(st.edges, cv, e.to) {
        assert r[|r| - 1].from == cv && r[|r| - 1].to == e.to;
      }
    }
  }

  /** No two new edges from the same source enter the composite, and no two new edges
      from the composite share a target. */
  ghost predicate OneEdgePerNeighbour<V>(r: seq<EdgeKeeper<V>>, cv: VertexKeeper<V>) {
    forall i, j :: 0 <= i < j < |r| && (r[i].to == cv || r[i].from == cv) ==>
      !(r[i].from == r[j].from && r[i].to == r[j].to)
  }

  lemma {:induction false} ShrinkEdgesOnePerNeighbour<V>(es: seq<EdgeKeeper<V>>, cycle: seq<VertexKeeper<V>>, cv: VertexKeeper<V>,
                                                             pEdges: seq<EdgeKeeper<V>>)
    requires ShrinkEdges(es, cycle, cv, pEdges).Ok? && FreshComposite(es, cycle, cv)
    ensures OneEdgePerNeighbour(ShrinkEdges(es, cycle, cv, pEdges).value.edges, cv)
    decreases |es|
  {
    if es != [] {
      var n := |es| - 1;
      var st := ShrinkEdges(es[..n], cycle, cv, pEdges).value;
      ShrinkEdgesOnePerNeighbour(es[..n], cycle, cv, pEdges);
      var r := ShrinkEdges(es, cycle, cv, pEdges).value.edges;
      var e := es[n];
      if |r| > |st.edges| {
        forall i, j | 0 <= i < j < |r| && (r[i].to == cv || r[i].from == cv)
          ensures !(r[i].from == r[j].from && r[i].to == r[j].to)
        {
        }
      }
    }
  }

  /** Some edge of `es` before index `k` enters the cycle from `u`. */
  ghost predicate EnteredBefore<V>(es: seq<EdgeKeeper<V>>, cycle: seq<VertexKeeper<V>>, k: int, u: VertexKeeper<V>) {
    exists k' :: 0 <= k' < k && k' < |es| && Entering(es[k'], cycle) && es[k'].from == u
  }

  lemma EnteredBeforePrefix<V>(es: seq<EdgeKeeper<V>>, cycle: seq<VertexKeeper<V>>, n: int, k: int, u: VertexKeeper<V>)
    requires 0 <= k <= n <= |es|
    ensures EnteredBefore(es[..n], cycle, k, u) == EnteredBefore(es, cycle, k, u)
  {
    if EnteredBefore(es, cycle, k, u) {
      var k' :| 0 <= k' < k && k' < |es| && Entering(es[k'], cycle) && es[k'].from == u;
      assert es[..n][k'] == es[k'];
    }
  }

  /** The edge kept into the composite from a source `u` stands for the first edge of
      `es` entering the cycle from `u`. */
  ghost predicate FirstEntering<V>(st: Shrunk<V>, es: seq<EdgeKeeper<V>>, cycle: seq<VertexKeeper<V>>, cv: VertexKeeper<V>) {
    forall ne :: ne in st.origin && ne.to == cv && Entering(st.origin[ne], cycle) ==>
      exists k :: 0 <= k < |es| && es[k] == st.origin[ne] && !EnteredBefore(es, cycle, k, ne.from)
  }

  /** A map entry that one pass adds or changes is for the edge of that pass; an edge
      into the composite is only added when no new edge from its source is there yet. */
  lemma ShrinkStepNew<V>(st: Shrunk<V>, e: EdgeKeeper<V>, cycle: seq<VertexKeeper<V>>, cv: VertexKeeper<V>,
                         pEdges: seq<EdgeKeeper<V>>, ne: EdgeKeeper<V>)
    requires ShrinkStep(st, e, cycle, cv, pEdges).Ok?
    requires ne in ShrinkStep(st, e, cycle, cv, pEdges).value.origin
    requires !(ne in st.origin && ShrinkStep(st, e, cycle, cv, pEdges).value.origin[ne] == st.origin[ne])
    ensures ShrinkStep(st, e, cycle, cv, pEdges).value.origin[ne] == e
    ensures Entering(e, cycle) ==> ne.from == e.from && !Joins(st.edges, e.from, cv)
  {
  }

  lemma {:induction false} ShrinkEdgesFirstEntering<V>(es: seq<EdgeKeeper<V>>, cycle: seq<VertexKeeper<V>>, cv: VertexKeeper<V>,
                                                           pEdges: seq<EdgeKeeper<V>>)
    requires ShrinkEdges(es, cycle, cv, pEdges).Ok?
    ensures FirstEntering(ShrinkEdges(es, cycle, cv, pEdges).value, es, cycle, cv)
    decreases |es|
  {
    if es != [] {
      var n := |es| - 1;
      var st := ShrinkEdges(es[..n], cycle, cv, pEdges).value;
      var st' := ShrinkEdges(es, cycle, cv, pEdges).value;
      assert st' == ShrinkStep(st, es[n], cycle, cv, pEdges).value;
      ShrinkEdgesFirstEntering(es[..n], cycle, cv, pEdges);
      forall ne | ne in st'.origin && ne.to == cv && Entering(st'.origin[ne], cycle)
        ensures exists k :: 0 <= k < |es| && es[k] == st'.origin[ne] && !EnteredBefore(es, cycle, k, ne.from)
      {
        if ne in st.origin && st'.origin[ne] == st.origin[ne] {
          var k :| 0 <= k < n && es[..n][k] == st.origin[ne] && !EnteredBefore(es[..n], cycle, k, ne.from);
          EnteredBeforePrefix(es, cycle, n, k, ne.from);
        } else {
          ShrinkStepNew(st, es[n], cycle, cv, pEdges, ne);
          if EnteredBefore(es, cycle, n, ne.from) {
            var k' :| 0 <= k' < n && k' < |es| && Entering(es[k'], cycle) && es[k'].from == ne.from;
            assert es[..n][k'] == es[k'];
            ShrinkEdgesCovers(es[..n], cycle, cv, pEdges, k');
          }
        }
      }
    }
  }

  /** The edges `markEdges` puts first: the image in `m` of each edge of `es`, in order. */
  function Images<V(==)>(es: seq<EdgeKeeper<V>>, m: map<EdgeKeeper<V>, EdgeKeeper<V>>): (r: seq<EdgeKeeper<V>>)
    requires forall k :: 0 <= k < |es| ==> es[k] in m
    ensures |r| == |es| && forall k :: 0 <= k < |es| ==> r[k] == m[es[k]]
  {
    if es == [] then []
    else Images(es[..|es| - 1], m) + [m[es[|es| - 1]]]
  }

  /** The predecessor `markEdges` pairs with `vs[i]`: the vertex before it in the list,
      and `prev0` (the cycle's last vertex) for the first. */
  function Predecessor<V>(vs: seq<VertexKeeper<V>>, prev0: VertexKeeper<V>, i: int): VertexKeeper<V>
    requires 0 <= i < |vs|
  {
    if i == 0 then prev0 else vs[i - 1]
  }

  /** The edges `markEdges` adds after the images: for each vertex `cv != v` of `vs` in
      order, the edges into `cv` from its predecessor, in edge order. */
  function ClosingEdges<V>(vs: seq<VertexKeeper<V>>, es: seq<EdgeKeeper<V>>, prev0: VertexKeeper<V>, v: VertexKeeper<V>): seq<EdgeKeeper<V>> {
    if vs == [] then []
    else
      var n := |vs| - 1;
      ClosingEdges(vs[..n], es, prev0, v)
        + (if vs[n] != v then EdgesFrom(EdgesTo(es, vs[n]), Predecessor(vs, prev0, n)) else [])
  }

  /** `e` goes into a vertex `vs[i] != v` from its predecessor. */
  ghost predicate ClosesAt<V>(vs: seq<VertexKeeper<V>>, prev0: VertexKeeper<V>, v: VertexKeeper<V>, e: EdgeKeeper<V>, i: int) {
    0 <= i < |vs| && vs[i] != v && e.to == vs[i] && e.from == Predecessor(vs, prev0, i)
  }

  /** Every edge added after the images is an edge of `es` into some vertex other than
      `v` from that vertex's predecessor. */
  lemma {:induction false} ClosingEdgesSound<V>(vs: seq<VertexKeeper<V>>, es: seq<EdgeKeeper<V>>, prev0: VertexKeeper<V>,
                                                v: VertexKeeper<V>, e: EdgeKeeper<V>)
    requires e in ClosingEdges(vs, es, prev0, v)
    ensures e in es && exists i :: ClosesAt(vs, prev0, v, e, i)
    decreases |vs|
  {
    var n := |vs| - 1;
    if e in ClosingEdges(vs[..n], es, prev0, v) {
      ClosingEdgesSound(vs[..n], es, prev0, v, e);
      var i :| ClosesAt(vs[..n], prev0, v, e, i);
      assert vs[..n][i] == vs[i];
      assert i > 0 ==> vs[..n][i - 1] == vs[i - 1];
      assert ClosesAt(vs, prev0, v, e, i);
    } else {
      assert ClosesAt(vs, prev0, v, e, n);
    }
  }

  /** The edges added for a prefix of `vs` stay. */
  lemma ClosingEdgesPrefix<V>(vs: seq<VertexKeeper<V>>, es: seq<EdgeKeeper<V>>, prev0: VertexKeeper<V>,
                              v: VertexKeeper<V>, e: EdgeKeeper<V>)
    requires vs != [] && e in ClosingEdges(vs[..|vs| - 1], es, prev0, v)
    ensures e in ClosingEdges(vs, es, prev0, v)
  {
  }

  /** The edges added for the last vertex of `vs`. */
  lemma ClosingEdgesLast<V>(vs: seq<VertexKeeper<V>>, es: seq<EdgeKeeper<V>>, prev0: VertexKeeper<V>,
                            v: VertexKeeper<V>, e: EdgeKeeper<V>)
    requires e in es && ClosesAt(vs, prev0, v, e, |vs| - 1)
    ensures e in ClosingEdges(vs, es, prev0, v)
  {
    var n := |vs| - 1;
    assert e in EdgesTo(es, vs[n]);
    assert e in EdgesFrom(EdgesTo(es, vs[n]), Predecessor(vs, prev0, n));
  }

  /** Every edge of `es` into a vertex `vs[i] != v` from its predecessor is added. */
  lemma {:induction false} ClosingEdgesComplete<V>(vs: seq<VertexKeeper<V>>, es: seq<EdgeKeeper<V>>, prev0: VertexKeeper<V>,
                                                   v: VertexKeeper<V>, e: EdgeKeeper<V>, i: int)
    requires e in es && ClosesAt(vs, prev0, v, e, i)
    ensures e in ClosingEdges(vs, es, prev0, v)
    decreases |vs|, 1
  {
    if i == |vs| - 1 {
      ClosingEdgesLast(vs, es, prev0, v, e);
    } else {
      ClosingEdgesEarlier(vs, es, prev0, v, e, i);
    }
  }

  lemma {:induction false} ClosingEdgesEarlier<V>(vs: seq<VertexKeeper<V>>, es: seq<EdgeKeeper<V>>, prev0: VertexKeeper<V>,
                                                  v: VertexKeeper<V>, e: EdgeKeeper<V>, i: int)
    requires e in es && ClosesAt(vs, prev0, v, e, i) && i < |vs| - 1
    ensures e in ClosingEdges(vs, es, prev0, v)
    decreases |vs|, 0
  {
    var n := |vs| - 1;
    assert vs[..n][i] == vs[i];
    assert i > 0 ==> vs[..n][i - 1] == vs[i - 1];
    ClosingEdgesComplete(vs[..n], es, prev0, v, e, i);
    ClosingEdgesPrefix(vs, es, prev0, v, e);
  }
}
