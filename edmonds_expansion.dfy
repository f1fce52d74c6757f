/** The expansion step of the integer arborescence finder (`markEdges`): the arborescence
    of the reduced graph is mapped back to edges of the graph, and the cycle is broken at
    the vertex its chosen entering edge reaches. */
module EdmondsExpansion {
  import opened Outcomes
  import opened Digraph
  import opened EdmondsSelection
  import opened EdmondsContraction
  import opened Sequences

  /** `e` enters the cycle vertex `c` from outside it. */
  ghost predicate EntersCycle(e: Edge<int>, c: int) {
    e.source != c && e.target == c
  }

  /** The edges of `redArb` into the cycle vertex `c`. */
  ghost function IntoCycle(redArb: set<Edge<int>>, c: int): set<Edge<int>> {
    set e | e in redArb && EntersCycle(e, c)
  }

  /** More than one edge of `S` enters the cycle vertex `c`. */
  ghost predicate SeveralIntoCycle(S: set<Edge<int>>, c: int) {
    exists a, b :: a in IntoCycle(S, c) && b in IntoCycle(S, c) && a != b
  }

  lemma SeveralIntoCycleGrows(S: set<Edge<int>>, T: set<Edge<int>>, c: int)
    requires S <= T && SeveralIntoCycle(S, c)
    ensures SeveralIntoCycle(T, c)
  {
    var a, b :| a in IntoCycle(S, c) && b in IntoCycle(S, c) && a != b;
    assert a in IntoCycle(T, c) && b in IntoCycle(T, c);
  }

  /** The map lookups `markEdges` makes for the reduced edge `e` succeed. */
  ghost predicate Mappable(e: Edge<int>, c: int, inc: map<int, Edge<int>>, out: map<int, Edge<int>>) {
    && (e.source == c ==> e.target in out)
    && (e.source != c && e.target == c ==> e.source in inc)
  }

  /** The edge `markEdges` adds for the reduced edge `e`: `e` itself when it does not touch
      `c`, `shortestOutcomming[t]` for `c -> t`, `shortestIncomming[u]` for `u -> c`. */
  function Image(e: Edge<int>, c: int, inc: map<int, Edge<int>>, out: map<int, Edge<int>>): Edge<int>
    requires Mappable(e, c, inc, out)
  {
    if e.source != c && e.target != c then e
    else if e.source == c then out[e.target]
    else inc[e.source]
  }

  ghost function Images(S: set<Edge<int>>, c: int, inc: map<int, Edge<int>>, out: map<int, Edge<int>>): set<Edge<int>>
    requires forall e :: e in S ==> Mappable(e, c, inc, out)
  {
    set e | e in S :: Image(e, c, inc, out)
  }

  /** `getEdge(cycle[i - 1], cycle[i])`. */
  function StepEdge(g: Graph<int>, cycle: seq<int>, i: int): Option<Edge<int>>
    requires 1 <= i < |cycle|
  {
    GetEdge(g.edges, cycle[i - 1], cycle[i])
  }

  /** The cycle is non-empty and `g` has an edge between consecutive cycle vertices and from
      the last back to the first. */
  ghost predicate CycleInGraph(g: Graph<int>, cycle: seq<int>) {
    && |cycle| >= 1
    && (forall i :: 1 <= i < |cycle| ==> StepEdge(g, cycle, i).Some?)
    && GetEdge(g.edges, cycle[|cycle| - 1], cycle[0]).Some?
  }

  /** The edges of `g` from `cycle[i - 1]` to `cycle[i]`, for `1 <= i < n` with
      `cycle[i] != s`. */
  ghost function PathEdges(g: Graph<int>, cycle: seq<int>, s: int, n: int): set<Edge<int>>
    requires n <= |cycle|
    requires forall i :: 1 <= i < |cycle| ==> StepEdge(g, cycle, i).Some?
  {
    set i | 1 <= i < n && cycle[i] != s :: StepEdge(g, cycle, i).value
  }

  /** The cycle's edges, the closing one from the last vertex to the first included, except
      the one into the splitting vertex `s`. */
  ghost function CycleEdges(g: Graph<int>, cycle: seq<int>, s: int): set<Edge<int>>
    requires CycleInGraph(g, cycle)
  {
    PathEdges(g, cycle, s, |cycle|)
    + if cycle[0] != s then {GetEdge(g.edges, cycle[|cycle| - 1], cycle[0]).value} else {}
  }

  /** The arborescence `markEdges` returns when `a` is the only reduced edge into `c`: the
      images of the reduced edges, and the cycle broken at the target of `inc[a.source]`. */
  ghost function Expanded(g: Graph<int>, redArb: set<Edge<int>>, cycle: seq<int>, c: int,
                          inc: map<int, Edge<int>>, out: map<int, Edge<int>>, a: Edge<int>): set<Edge<int>>
    requires CycleInGraph(g, cycle)
    requires forall e :: e in redArb ==> Mappable(e, c, inc, out)
    requires a in IntoCycle(redArb, c)
  {
    Images(redArb, c, inc, out) + CycleEdges(g, cycle, inc[a.source].target)
  }

  /** `markEdges`: an error when no reduced edge or more than one enters `c`, and otherwise
      the expansion through the single entering edge. */
  method MarkEdges(g: Graph<int>, redArb: set<Edge<int>>, cycle: seq<int>, c: int,
                   inc: map<int, Edge<int>>, out: map<int, Edge<int>>)
    returns (r: Result<set<Edge<int>>, Error>)
    requires CycleInGraph(g, cycle)
    requires forall e :: e in redArb ==> Mappable(e, c, inc, out)
    ensures r == Err(NoCycleSplittingVertex) <==> IntoCycle(redArb, c) == {}
    ensures r == Err(NonUniqueEdgeIntoCycle) <==> SeveralIntoCycle(redArb, c)
    ensures r.Ok? <==> exists a :: IntoCycle(redArb, c) == {a}
    ensures r.Ok? ==> exists a :: IntoCycle(redArb, c) == {a} && r.value == Expanded(g, redArb, cycle, c, inc, out, a)
  {
    var mapped := MapReducedEdges(redArb, c, inc, out);
    if mapped.Err? {
      return Err(mapped.error);
    }
    var (arb, splittingV) := mapped.value;
    if splittingV.None? {
      return Err(NoCycleSplittingVertex);
    }
    ghost var a :| IntoCycle(redArb, c) == {a} && splittingV == Some(inc[a.source].target);
    assert a in IntoCycle(redArb, c);
    arb := BreakCycle(g, cycle, splittingV.value, arb);
    return Ok(arb);
  }

  /** The loop of `markEdges` over the reduced arborescence: every reduced edge is replaced
      by its image, an edge into `c` fixes the splitting vertex, and a second edge into `c`
      is an error. */
  method MapReducedEdges(redArb: set<Edge<int>>, c: int, inc: map<int, Edge<int>>, out: map<int, Edge<int>>)
    returns (r: Result<(set<Edge<int>>, Option<int>), Error>)
    requires forall e :: e in redArb ==> Mappable(e, c, inc, out)
    ensures r.Err? <==> SeveralIntoCycle(redArb, c)
    ensures r.Err? ==> r.error == NonUniqueEdgeIntoCycle
    ensures r.Ok? ==> r.value.0 == Images(redArb, c, inc, out)
    ensures r.Ok? && r.value.1.None? ==> IntoCycle(redArb, c) == {}
    ensures r.Ok? && r.value.1.Some? ==>
      exists a: Edge<int> :: a.source in inc && IntoCycle(redArb, c) == {a} && r.value.1 == Some(inc[a.source].target)
  {
    var arb: set<Edge<int>> := {};
    var splittingV: Option<int> := None;
    ghost var entry: Option<Edge<int>> := None;
    ghost var seen: set<Edge<int>> := {};
    var rest := redArb;
    while rest != {}
      invariant seen + rest == redArb && seen !! rest
      invariant Mapped(seen, arb, splittingV, entry, c, inc, out)
      decreases |rest|
    {
      var e :| e in rest;
      var duplicate;
      arb, splittingV, duplicate, entry := MapEdge(seen, arb, splittingV, entry, e, c, inc, out);
      if duplicate {
        SeveralIntoCycleGrows(seen + {e}, redArb, c);
        return Err(NonUniqueEdgeIntoCycle);
      }
      MoveOne(seen, rest, redArb, e);
      rest := rest - {e};
      seen := seen + {e};
    }
    assert seen == redArb;
    MappedAll(redArb, arb, splittingV, entry, c, inc, out);
    return Ok((arb, splittingV));
  }

  /** Once every reduced edge is handled, at most one enters `c`, and the splitting vertex
      is the target of the candidate of its source. */
  lemma MappedAll(redArb: set<Edge<int>>, arb: set<Edge<int>>, splittingV: Option<int>, entry: Option<Edge<int>>,
                  c: int, inc: map<int, Edge<int>>, out: map<int, Edge<int>>)
    requires Mapped(redArb, arb, splittingV, entry, c, inc, out)
    ensures !SeveralIntoCycle(redArb, c)
    ensures splittingV.None? ==> IntoCycle(redArb, c) == {}
    ensures splittingV.Some? ==>
      exists a: Edge<int> :: a.source in inc && IntoCycle(redArb, c) == {a} && splittingV == Some(inc[a.source].target)
  {
    if entry.Some? {
      assert IntoCycle(redArb, c) == {entry.value};
    }
  }

  /** The state of the loop of `markEdges` once the reduced edges `seen` are handled: `arb`
      holds their images, and `entry`, the edge among them into `c` if any, fixes
      the splitting vertex. */
  ghost predicate Mapped(seen: set<Edge<int>>, arb: set<Edge<int>>, splittingV: Option<int>, entry: Option<Edge<int>>,
                         c: int, inc: map<int, Edge<int>>, out: map<int, Edge<int>>)
  {
    && (forall x :: x in seen ==> Mappable(x, c, inc, out))
    && arb == Images(seen, c, inc, out)
    && (entry.None? <==> splittingV.None?)
    && (entry.None? ==> IntoCycle(seen, c) == {})
    && (entry.Some? ==> && IntoCycle(seen, c) == {entry.value}
                        && entry.value.source in inc
                        && splittingV == Some(inc[entry.value.source].target))
  }

  /** One pass of the loop of `markEdges`: the image of `e` is added, and an edge into `c`
      fixes the splitting vertex unless one already did. */
  method MapEdge(ghost seen: set<Edge<int>>, arb: set<Edge<int>>, splittingV: Option<int>, ghost entry: Option<Edge<int>>,
                 e: Edge<int>, c: int, inc: map<int, Edge<int>>, out: map<int, Edge<int>>)
    returns (arb': set<Edge<int>>, splittingV': Option<int>, duplicate: bool, ghost entry': Option<Edge<int>>)
    requires Mapped(seen, arb, splittingV, entry, c, inc, out)
    requires Mappable(e, c, inc, out) && e !in seen
    ensures duplicate ==> SeveralIntoCycle(seen + {e}, c)
    ensures !duplicate ==> Mapped(seen + {e}, arb', splittingV', entry', c, inc, out)
  {
    arb' := AddImage(arb, seen, e, c, inc, out);
    splittingV', duplicate, entry' := splittingV, false, entry;
    assert IntoCycle(seen + {e}, c) == IntoCycle(seen, c) + if EntersCycle(e, c) then {e} else {};
    if e.source != c && e.target == c {
      if splittingV.Some? {
        assert entry.value in IntoCycle(seen + {e}, c) && e in IntoCycle(seen + {e}, c);
        return arb', splittingV', true, entry';
      }
      splittingV' := Some(inc[e.source].target);
      entry' := Some(e);
    }
  }

  /** One step of the loop of `markEdges`: the image of `e` is added. */
  method AddImage(arb: set<Edge<int>>, ghost seen: set<Edge<int>>, e: Edge<int>, c: int,
                  inc: map<int, Edge<int>>, out: map<int, Edge<int>>) returns (arb': set<Edge<int>>)
    requires forall x :: x in seen ==> Mappable(x, c, inc, out)
    requires Mappable(e, c, inc, out)
    requires arb == Images(seen, c, inc, out)
    ensures arb' == Images(seen + {e}, c, inc, out)
  {
    ImagesAdd(seen, e, c, inc, out);
    if e.source != c && e.target != c {
      arb' := arb + {e};
    } else if e.source == c {
      arb' := arb + {out[e.target]};
    } else {
      arb' := arb + {inc[e.source]};
    }
  }

  lemma ImagesAdd(S: set<Edge<int>>, e: Edge<int>, c: int, inc: map<int, Edge<int>>, out: map<int, Edge<int>>)
    requires forall x :: x in S ==> Mappable(x, c, inc, out)
    requires Mappable(e, c, inc, out)
    ensures Images(S + {e}, c, inc, out) == Images(S, c, inc, out) + {Image(e, c, inc, out)}
  {
  }

  /** The walk of `markEdges` along the cycle: it adds the edge into every cycle vertex other
      than the splitting vertex `s`, the closing edge into the first vertex included. */
  method BreakCycle(g: Graph<int>, cycle: seq<int>, s: int, arb: set<Edge<int>>) returns (arb': set<Edge<int>>)
    requires CycleInGraph(g, cycle)
    ensures arb' == arb + CycleEdges(g, cycle, s)
  {
    arb' := arb;
    var prev: Option<int> := None;
    for i := 0 to |cycle|
      invariant i == 0 <==> prev.None?
      invariant i > 0 ==> prev == Some(cycle[i - 1])
      invariant arb' == arb + PathEdges(g, cycle, s, i)
    {
      var cv := cycle[i];
      if prev.None? {
        prev := Some(cv);
        assert PathEdges(g, cycle, s, i + 1) == PathEdges(g, cycle, s, i);
      } else {
        if cv != s {
          assert StepEdge(g, cycle, i) == GetEdge(g.edges, prev.value, cv);
          arb' := arb' + {GetEdge(g.edges, prev.value, cv).value};
          assert PathEdges(g, cycle, s, i + 1) == PathEdges(g, cycle, s, i) + {StepEdge(g, cycle, i).value};
        } else {
          assert PathEdges(g, cycle, s, i + 1) == PathEdges(g, cycle, s, i);
        }
        prev := Some(cv);
      }
    }
    var first := cycle[0];
    if first != s {
      arb' := arb' + {GetEdge(g.edges, prev.value, first).value};
    }
  }

  /** What the expansion needs to know about the contraction that produced `reduced` with
      cycle vertex `c`: where the edges chosen by `shrinkCycle` lie, which reduced edges
      exist, that `c` is fresh and that the cycle is a simple cycle of `g`. */
  ghost predicate ExpansionContext(g: Graph<int>, cycle: seq<int>, c: int, reduced: Graph<int>,
                                   inc: map<int, Edge<int>>, out: map<int, Edge<int>>)
  {
    && CycleInGraph(g, cycle) && Distinct(cycle)
    && (forall i :: 0 <= i < |cycle| ==> cycle[i] in g.vertices)
    && c !in g.vertices
    && (forall v :: v in reduced.vertices <==> (v in g.vertices && v !in cycle) || v == c)
    && (forall u :: u in inc ==> inc[u] in g.edges && inc[u].source == u && u !in cycle && inc[u].target in cycle)
    && (forall t :: t in out ==> out[t] in g.edges && out[t].target == t && t !in cycle && out[t].source in cycle)
    && (forall e :: e in reduced.edges ==> e.source != e.target)
    && (forall e :: e in reduced.edges && e.source != c && e.target != c ==>
          e in g.edges && e.source !in cycle && e.target !in cycle)
    && (forall e :: e in reduced.edges ==> Mappable(e, c, inc, out))
  }

  /** The contraction `shrinkCycle` builds for a cycle of P-edges gives the expansion
      context, with cycle vertex `maxVertex + 1`. */
  lemma ContractionGivesContext(g: Graph<int>, p: set<Edge<int>>, cycle: seq<int>, maxVertex: int,
                                reduced: Graph<int>, inc: map<int, Edge<int>>, out: map<int, Edge<int>>)
    requires IsContraction(g, p, cycle, maxVertex, reduced, inc, out)
    requires Simple(g) && (forall v :: v in g.vertices ==> v <= maxVertex)
    requires IsCycleOf(g.vertices, p, cycle) && (forall e :: e in p ==> e in g.edges)
    ensures ExpansionContext(g, cycle, maxVertex + 1, reduced, inc, out)
  {
    ContractionMaps(g, p, cycle, maxVertex, reduced, inc, out);
    ContractionVertices(g, p, cycle, maxVertex, reduced, inc, out);
    ContractionNoSelfLoop(g, p, cycle, maxVertex, reduced, inc, out);
    ContractionKeepsOutsideEdges(g, p, cycle, maxVertex, reduced, inc, out);
    PCycleInGraph(g, p, cycle);
    ContractionMappable(g, p, cycle, maxVertex, reduced, inc, out);
    ContextOf(g, cycle, maxVertex + 1, reduced, inc, out);
  }

  /** The facts the expansion relies on, gathered. */
  lemma ContextOf(g: Graph<int>, cycle: seq<int>, c: int, reduced: Graph<int>,
                  inc: map<int, Edge<int>>, out: map<int, Edge<int>>)
    requires CycleInGraph(g, cycle) && Distinct(cycle)
    requires forall i :: 0 <= i < |cycle| ==> cycle[i] in g.vertices
    requires c !in g.vertices
    requires forall v :: v in reduced.vertices <==> (v in g.vertices && v !in cycle) || v == c
    requires forall u :: u in inc ==> inc[u] in g.edges && inc[u].source == u && u !in cycle && inc[u].target in cycle
    requires forall t :: t in out ==> out[t] in g.edges && out[t].target == t && t !in cycle && out[t].source in cycle
    requires forall e :: e in reduced.edges ==> e.source != e.target
    requires forall e :: e in reduced.edges && e.source != c && e.target != c ==>
          e in g.edges && e.source !in cycle && e.target !in cycle
    requires forall e :: e in reduced.edges ==> Mappable(e, c, inc, out)
    ensures ExpansionContext(g, cycle, c, reduced, inc, out)
  {
  }

  lemma ContractionNoSelfLoop(g: Graph<int>, p: set<Edge<int>>, cycle: seq<int>, maxVertex: int,
                              reduced: Graph<int>, inc: map<int, Edge<int>>, out: map<int, Edge<int>>)
    requires IsContraction(g, p, cycle, maxVertex, reduced, inc, out)
    requires Simple(g) && (forall v :: v in g.vertices ==> v <= maxVertex)
    ensures forall e :: e in reduced.edges ==> e.source != e.target
  {
    ContractionSimple(g, p, cycle, maxVertex, reduced, inc, out);
  }

  /** A cycle of P-edges, which are edges of `g`, is a cycle of `g`. */
  lemma PCycleInGraph(g: Graph<int>, p: set<Edge<int>>, cycle: seq<int>)
    requires IsCycleOf(g.vertices, p, cycle) && (forall e :: e in p ==> e in g.edges)
    ensures CycleInGraph(g, cycle)
  {
    forall i | 1 <= i < |cycle| ensures StepEdge(g, cycle, i).Some? {
      assert Joined(p, cycle[i - 1], cycle[i]);
    }
    assert Joined(p, cycle[|cycle| - 1], cycle[0]);
  }

  /** The lookups `markEdges` makes for the edges of a contraction succeed. */
  lemma ContractionMappable(g: Graph<int>, p: set<Edge<int>>, cycle: seq<int>, maxVertex: int,
                            reduced: Graph<int>, inc: map<int, Edge<int>>, out: map<int, Edge<int>>)
    requires IsContraction(g, p, cycle, maxVertex, reduced, inc, out)
    requires Simple(g) && (forall v :: v in g.vertices ==> v <= maxVertex)
    ensures forall e :: e in reduced.edges ==> Mappable(e, maxVertex + 1, inc, out)
  {
    var c := maxVertex + 1;
    forall e | e in reduced.edges ensures Mappable(e, c, inc, out) {
      if e.source == c {
        ContractionExitWeight(g, p, cycle, maxVertex, reduced, inc, out, e);
      } else if e.target == c {
        ContractionEntryWeight(g, p, cycle, maxVertex, reduced, inc, out, e);
      }
    }
  }

  /** An arborescence of the reduced graph enters the cycle vertex by exactly one edge. */
  lemma ArborescenceEntersCycleOnce(g: Graph<int>, cycle: seq<int>, c: int, reduced: Graph<int>,
                                    inc: map<int, Edge<int>>, out: map<int, Edge<int>>,
                                    root: int, redArb: set<Edge<int>>)
    requires ExpansionContext(g, cycle, c, reduced, inc, out)
    requires OneEdgeIntoEach(reduced, root, redArb) && c != root
    ensures exists a :: IntoCycle(redArb, c) == {a}
  {
    assert c in reduced.vertices;
    var a :| a in redArb && a.target == c;
    assert a in reduced.edges;
    assert IntoCycle(redArb, c) == {a};
  }

  /** The image of a reduced edge: an edge of `g`, into the cycle exactly when the reduced
      edge enters `c`, and otherwise into the same vertex. */
  lemma ImageOf(g: Graph<int>, cycle: seq<int>, c: int, reduced: Graph<int>,
                inc: map<int, Edge<int>>, out: map<int, Edge<int>>, x: Edge<int>)
    requires ExpansionContext(g, cycle, c, reduced, inc, out)
    requires x in reduced.edges
    ensures Image(x, c, inc, out) in g.edges
    ensures EntersCycle(x, c) ==> Image(x, c, inc, out) == inc[x.source] && Image(x, c, inc, out).target in cycle
    ensures !EntersCycle(x, c) ==> Image(x, c, inc, out).target == x.target && x.target !in cycle && x.target != c
  {
  }

  /** Every edge of the expansion is an edge of `g` that does not end at the root. */
  lemma ExpansionEdgesInGraph(g: Graph<int>, cycle: seq<int>, c: int, reduced: Graph<int>,
                              inc: map<int, Edge<int>>, out: map<int, Edge<int>>,
                              root: int, redArb: set<Edge<int>>, a: Edge<int>)
    requires ExpansionContext(g, cycle, c, reduced, inc, out)
    requires forall e :: e in redArb ==> e in reduced.edges && e.target != root
    requires root !in cycle && a in IntoCycle(redArb, c)
    ensures forall e :: e in Expanded(g, redArb, cycle, c, inc, out, a) ==> e in g.edges && e.target != root
  {
    var s := inc[a.source].target;
    forall y | y in Expanded(g, redArb, cycle, c, inc, out, a) ensures y in g.edges && y.target != root {
      if y in Images(redArb, c, inc, out) {
        var x :| x in redArb && y == Image(x, c, inc, out);
        ImageOf(g, cycle, c, reduced, inc, out, x);
      } else if y in PathEdges(g, cycle, s, |cycle|) {
        var i :| 1 <= i < |cycle| && cycle[i] != s && y == StepEdge(g, cycle, i).value;
      }
    }
  }

  /** The cycle edges the expansion adds end at distinct cycle vertices other than the
      splitting vertex `s`, and every such vertex is reached by one of them. */
  lemma CycleEdgesInto(g: Graph<int>, cycle: seq<int>, s: int)
    requires CycleInGraph(g, cycle) && Distinct(cycle)
    ensures forall y :: y in CycleEdges(g, cycle, s) ==> y.target in cycle && y.target != s
    ensures forall y1, y2 :: y1 in CycleEdges(g, cycle, s) && y2 in CycleEdges(g, cycle, s) && y1.target == y2.target ==> y1 == y2
    ensures forall v :: v in cycle && v != s ==> exists y :: y in CycleEdges(g, cycle, s) && y.target == v
  {
    var n := |cycle|;
    var closing := GetEdge(g.edges, cycle[n - 1], cycle[0]).value;
    forall y | y in CycleEdges(g, cycle, s) ensures y.target in cycle && y.target != s {
      if y in PathEdges(g, cycle, s, n) {
        var i :| 1 <= i < n && cycle[i] != s && y == StepEdge(g, cycle, i).value;
      }
    }
    forall y1, y2 | y1 in CycleEdges(g, cycle, s) && y2 in CycleEdges(g, cycle, s) && y1.target == y2.target
      ensures y1 == y2
    {
      if y1 in PathEdges(g, cycle, s, n) && y2 in PathEdges(g, cycle, s, n) {
        var i :| 1 <= i < n && cycle[i] != s && y1 == StepEdge(g, cycle, i).value;
        var j :| 1 <= j < n && cycle[j] != s && y2 == StepEdge(g, cycle, j).value;
      }
    }
    forall v | v in cycle && v != s ensures exists y :: y in CycleEdges(g, cycle, s) && y.target == v {
      var i :| 0 <= i < n && cycle[i] == v;
      if i == 0 {
        assert closing in CycleEdges(g, cycle, s);
      } else {
        assert StepEdge(g, cycle, i).value in PathEdges(g, cycle, s, n);
      }
    }
  }

  /** Expansion keeps the arborescence shape: if the reduced edges give every reduced vertex
      but the root exactly one incoming edge, the expanded edges do so in `g`. */
  lemma ExpansionOneEdgeIntoEach(g: Graph<int>, cycle: seq<int>, c: int, reduced: Graph<int>,
                                 inc: map<int, Edge<int>>, out: map<int, Edge<int>>,
                                 root: int, redArb: set<Edge<int>>, a: Edge<int>)
    requires ExpansionContext(g, cycle, c, reduced, inc, out)
    requires OneEdgeIntoEach(reduced, root, redArb)
    requires root !in cycle && IntoCycle(redArb, c) == {a}
    ensures OneEdgeIntoEach(g, root, Expanded(g, redArb, cycle, c, inc, out, a))
  {
    var A := Expanded(g, redArb, cycle, c, inc, out, a);
    var s := inc[a.source].target;
    assert a in IntoCycle(redArb, c);
    ImageOf(g, cycle, c, reduced, inc, out, a);
    ExpansionEdgesInGraph(g, cycle, c, reduced, inc, out, root, redArb, a);
    CycleEdgesInto(g, cycle, s);
    forall v | v in g.vertices && v != root ensures exists e :: e in A && e.target == v {
      if v == s {
        assert Image(a, c, inc, out) in A;
      } else if v in cycle {
        var y :| y in CycleEdges(g, cycle, s) && y.target == v;
      } else {
        assert v in reduced.vertices;
        var x :| x in redArb && x.target == v;
        ImageOf(g, cycle, c, reduced, inc, out, x);
        assert Image(x, c, inc, out) in A;
      }
    }
    forall y1, y2 | y1 in A && y2 in A && y1.target == y2.target ensures y1 == y2 {
      ImagesUnique(g, cycle, c, reduced, inc, out, root, redArb, a, y1, y2);
    }
  }

  lemma ImagesUnique(g: Graph<int>, cycle: seq<int>, c: int, reduced: Graph<int>,
                     inc: map<int, Edge<int>>, out: map<int, Edge<int>>,
                     root: int, redArb: set<Edge<int>>, a: Edge<int>, y1: Edge<int>, y2: Edge<int>)
    requires ExpansionContext(g, cycle, c, reduced, inc, out)
    requires OneEdgeIntoEach(reduced, root, redArb)
    requires root !in cycle && IntoCycle(redArb, c) == {a}
    requires y1 in Expanded(g, redArb, cycle, c, inc, out, a) && y2 in Expanded(g, redArb, cycle, c, inc, out, a)
    requires y1.target == y2.target
    ensures y1 == y2
  {
    var s := inc[a.source].target;
    assert a in IntoCycle(redArb, c);
    ImageOf(g, cycle, c, reduced, inc, out, a);
    CycleEdgesInto(g, cycle, s);
    if y1 in Images(redArb, c, inc, out) && y2 in Images(redArb, c, inc, out) {
      var x1 :| x1 in redArb && y1 == Image(x1, c, inc, out);
      var x2 :| x2 in redArb && y2 == Image(x2, c, inc, out);
      ImageOf(g, cycle, c, reduced, inc, out, x1);
      ImageOf(g, cycle, c, reduced, inc, out, x2);
      if EntersCycle(x1, c) {
        assert x1 in IntoCycle(redArb, c);
        if EntersCycle(x2, c) {
          assert x2 in IntoCycle(redArb, c);
        }
      }
    } else if y1 in Images(redArb, c, inc, out) {
      var x1 :| x1 in redArb && y1 == Image(x1, c, inc, out);
      ImageOf(g, cycle, c, reduced, inc, out, x1);
    } else if y2 in Images(redArb, c, inc, out) {
      var x2 :| x2 in redArb && y2 == Image(x2, c, inc, out);
      ImageOf(g, cycle, c, reduced, inc, out, x2);
    }
  }
}
