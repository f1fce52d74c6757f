/** The contraction step of the integer arborescence finder (`shrinkCycle`): the cycle
    becomes the fresh vertex `maxVertex + 1`, every outside vertex keeps its cheapest way
    into the cycle (by reduced weight) and its cheapest way out of it. */
module EdmondsContraction {
  import opened Outcomes
  import opened Minimum
  import opened Digraph
  import opened EdmondsSelection

  /** The vertices of `vs` that are not on the cycle, in order. */
  function Outside(vs: seq<int>, cycle: seq<int>): (r: seq<int>)
    ensures forall v :: v in r <==> v in vs && v !in cycle
    ensures |r| <= |vs|
  {
    if vs == [] then []
    else Outside(vs[..|vs| - 1], cycle) + (if vs[|vs| - 1] in cycle then [] else [vs[|vs| - 1]])
  }

  /** The edges with neither endpoint on the cycle, in order. */
  function Unrelated(es: seq<Edge<int>>, cycle: seq<int>): (r: seq<Edge<int>>)
    ensures forall e :: e in r <==> e in es && e.source !in cycle && e.target !in cycle
  {
    if es == [] then []
    else
      var e := es[|es| - 1];
      Unrelated(es[..|es| - 1], cycle) + (if e.source !in cycle && e.target !in cycle then [e] else [])
  }

  /** The edges from the outside vertex `u` into the cycle, in order. */
  function EnteringFrom(es: seq<Edge<int>>, cycle: seq<int>, u: int): (r: seq<Edge<int>>)
    ensures forall e :: e in r <==> e in es && e.source == u && u !in cycle && e.target in cycle
  {
    if es == [] then []
    else
      var e := es[|es| - 1];
      EnteringFrom(es[..|es| - 1], cycle, u) + (if e.source == u && u !in cycle && e.target in cycle then [e] else [])
  }

  /** The edges from the cycle to the outside vertex `t`, in order. */
  function LeavingTo(es: seq<Edge<int>>, cycle: seq<int>, t: int): (r: seq<Edge<int>>)
    ensures forall e :: e in r <==> e in es && e.source in cycle && e.target == t && t !in cycle
  {
    if es == [] then []
    else
      var e := es[|es| - 1];
      LeavingTo(es[..|es| - 1], cycle, t) + (if e.source in cycle && e.target == t && t !in cycle then [e] else [])
  }

  /** The weight of the P-edge into `v` (0 when there is none). */
  ghost function PWeight(p: set<Edge<int>>, v: int): int {
    if exists e :: e in p && e.target == v then
      var e :| e in p && e.target == v; e.weight
    else 0
  }

  lemma PWeightOf(p: set<Edge<int>>, e: Edge<int>)
    requires OnePerTarget(p) && e in p
    ensures PWeight(p, e.target) == e.weight
  {
    var f :| f in p && f.target == e.target && PWeight(p, e.target) == f.weight;
  }

  /** The vertices the P-edges enter. */
  ghost function PTargets(p: set<Edge<int>>): set<int> {
    set e | e in p :: e.target
  }

  /** `findIncomming(pEdges, v)` where the P-edges hold exactly one edge into `v`: that edge,
      whose weight is `PWeight(p, v)`. */
  method PEdgeInto(p: set<Edge<int>>, v: int) returns (pE: Edge<int>)
    requires OnePerTarget(p)
    requires v in PTargets(p)
    ensures pE in p && pE.target == v && pE.weight == PWeight(p, v)
  {
    var found := FindIncoming(p, v);
    assert found.Ok? && found.value.Some?;
    pE := found.value.value;
    PWeightOf(p, pE);
  }

  /** The reduced weight of an edge into the cycle: its weight minus the weight of the
      P-edge into its target. */
  ghost function ReducedKey(p: set<Edge<int>>): Edge<int> -> int {
    (e: Edge<int>) => e.weight - PWeight(p, e.target)
  }

  /** A map lookup with the source's `getOrDefault(k, null)`. */
  function Lookup(m: map<int, Edge<int>>, k: int): Option<Edge<int>> {
    if k in m then Some(m[k]) else None
  }

  /** The reduced-graph edge `u -> c` standing for `shortestIncomming[u]`. */
  ghost function EntryEdge(p: set<Edge<int>>, inc: map<int, Edge<int>>, c: int, u: int): Edge<int>
    requires u in inc
  {
    Edge(u, c, inc[u].weight - PWeight(p, inc[u].target))
  }

  /** The edges `u -> c` for the keys `u` of `inc`, in the order of `vs`. */
  ghost function EntryEdges(p: set<Edge<int>>, vs: seq<int>, inc: map<int, Edge<int>>, c: int): (r: seq<Edge<int>>)
    ensures forall e :: e in r <==> e.source in vs && e.source in inc && e == EntryEdge(p, inc, c, e.source)
  {
    if vs == [] then []
    else
      var u := vs[|vs| - 1];
      EntryEdges(p, vs[..|vs| - 1], inc, c) + (if u in inc then [EntryEdge(p, inc, c, u)] else [])
  }

  /** The edges `c -> t` for the keys `t` of `out`, with the weight of `shortestOutcomming[t]`,
      in the order of `vs`. */
  function ExitEdges(vs: seq<int>, out: map<int, Edge<int>>, c: int): (r: seq<Edge<int>>)
    ensures forall e :: e in r <==> e.target in vs && e.target in out && e == Edge(c, e.target, out[e.target].weight)
  {
    if vs == [] then []
    else
      var t := vs[|vs| - 1];
      ExitEdges(vs[..|vs| - 1], out, c) + (if t in out then [Edge(c, t, out[t].weight)] else [])
  }

  /** The result of `shrinkCycle` with cycle vertex `c = maxVertex + 1`: the vertices off
      the cycle followed by `c`; the unrelated edges, then one edge into `c` per key of
      `inc`, then one edge out of `c` per key of `out`. `inc[u]` is the first edge from `u`
      into the cycle of least reduced weight, `out[t]` the first edge from the cycle to `t`
      of least weight. The maps are iterated in the order of the graph's vertex list. */
  ghost predicate IsContraction(g: Graph<int>, p: set<Edge<int>>, cycle: seq<int>, maxVertex: int,
                                reduced: Graph<int>, inc: map<int, Edge<int>>, out: map<int, Edge<int>>)
  {
    var c := maxVertex + 1;
    && reduced.vertices == Outside(g.vertices, cycle) + [c]
    && reduced.edges == Unrelated(g.edges, cycle) + EntryEdges(p, g.vertices, inc, c) + ExitEdges(g.vertices, out, c)
    && (forall u :: Lookup(inc, u) == FirstMin(EnteringFrom(g.edges, cycle, u), ReducedKey(p)))
    && (forall t :: Lookup(out, t) == FirstMin(LeavingTo(g.edges, cycle, t), Weight))
  }

  lemma EnteringFromSkip(seen: seq<Edge<int>>, cycle: seq<int>, u: int, e: Edge<int>)
    requires !(e.source == u && u !in cycle && e.target in cycle)
    ensures EnteringFrom(seen + [e], cycle, u) == EnteringFrom(seen, cycle, u)
  {
    assert (seen + [e])[..|seen|] == seen;
  }

  lemma EnteringFromTake(seen: seq<Edge<int>>, cycle: seq<int>, e: Edge<int>)
    requires e.source !in cycle && e.target in cycle
    ensures EnteringFrom(seen + [e], cycle, e.source) == EnteringFrom(seen, cycle, e.source) + [e]
  {
    assert (seen + [e])[..|seen|] == seen;
  }

  lemma LeavingToSkip(seen: seq<Edge<int>>, cycle: seq<int>, t: int, e: Edge<int>)
    requires !(e.source in cycle && e.target == t && t !in cycle)
    ensures LeavingTo(seen + [e], cycle, t) == LeavingTo(seen, cycle, t)
  {
    assert (seen + [e])[..|seen|] == seen;
  }

  lemma LeavingToTake(seen: seq<Edge<int>>, cycle: seq<int>, e: Edge<int>)
    requires e.source in cycle && e.target !in cycle
    ensures LeavingTo(seen + [e], cycle, e.target) == LeavingTo(seen, cycle, e.target) + [e]
  {
    assert (seen + [e])[..|seen|] == seen;
  }

  /** The relation the pass over the edge list keeps after the edges `seen`. */
  ghost predicate Scanned(seen: seq<Edge<int>>, cycle: seq<int>, p: set<Edge<int>>,
                          edges: seq<Edge<int>>, inc: map<int, Edge<int>>, out: map<int, Edge<int>>)
  {
    && edges == Unrelated(seen, cycle)
    && (forall u {:trigger Lookup(inc, u)} :: Lookup(inc, u) == FirstMin(EnteringFrom(seen, cycle, u), ReducedKey(p)))
    && (forall t {:trigger Lookup(out, t)} :: Lookup(out, t) == FirstMin(LeavingTo(seen, cycle, t), Weight))
  }

  /** The pass of `shrinkCycle` over the edge list: it copies the unrelated edges and
      fills `shortestIncomming` (`inc`) and `shortestOutcomming` (`out`). */
  method ScanEdges(g: Graph<int>, cycle: seq<int>, p: set<Edge<int>>)
    returns (edges: seq<Edge<int>>, inc: map<int, Edge<int>>, out: map<int, Edge<int>>)
    requires OnePerTarget(p)
    requires forall v :: v in cycle ==> v in PTargets(p)
    ensures Scanned(g.edges, cycle, p, edges, inc, out)
  {
    edges := [];
    inc, out := map[], map[];
    ScannedNone(cycle, p);
    for i := 0 to |g.edges|
      invariant Scanned(g.edges[..i], cycle, p, edges, inc, out)
    {
      edges, inc, out := ScanEdge(g.edges[..i], cycle, p, edges, inc, out, g.edges[i]);
      ScannedOneMore(g.edges, i, cycle, p, edges, inc, out);
    }
    assert g.edges[..|g.edges|] == g.edges;
  }

  /** Having scanned the prefix of `es` of length `i` and then `es[i]` is having scanned
      the prefix of length `i + 1`. */
  lemma ScannedOneMore(es: seq<Edge<int>>, i: int, cycle: seq<int>, p: set<Edge<int>>,
                       edges: seq<Edge<int>>, inc: map<int, Edge<int>>, out: map<int, Edge<int>>)
    requires 0 <= i < |es|
    requires Scanned(es[..i] + [es[i]], cycle, p, edges, inc, out)
    ensures Scanned(es[..i + 1], cycle, p, edges, inc, out)
  {
    assert es[..i + 1] == es[..i] + [es[i]];
  }

  /** Before the pass, no edge has been seen and both maps are empty. */
  lemma ScannedNone(cycle: seq<int>, p: set<Edge<int>>)
    ensures Scanned([], cycle, p, [], map[], map[])
  {
  }

  /** The body of the pass for one edge `e`, classified by which endpoints lie on the cycle. */
  method ScanEdge(ghost seen: seq<Edge<int>>, cycle: seq<int>, p: set<Edge<int>>,
                  edges: seq<Edge<int>>, inc: map<int, Edge<int>>, out: map<int, Edge<int>>, e: Edge<int>)
    returns (edges': seq<Edge<int>>, inc': map<int, Edge<int>>, out': map<int, Edge<int>>)
    requires OnePerTarget(p)
    requires forall v :: v in cycle ==> v in PTargets(p)
    requires Scanned(seen, cycle, p, edges, inc, out)
    ensures Scanned(seen + [e], cycle, p, edges', inc', out')
  {
    edges', inc', out' := edges, inc, out;
    if e.source !in cycle && e.target in cycle {
      ScannedCandidate(seen, cycle, p, edges, inc, out, e.source);
      inc' := OfferEntering(cycle, p, inc, e);
      ScannedEntering(seen, cycle, p, edges, inc, out, inc', e);
    } else if e.source in cycle && e.target !in cycle {
      out' := OfferLeaving(out, e);
      ScannedLeaving(seen, cycle, p, edges, inc, out, out', e);
    } else {
      if e.source !in cycle && e.target !in cycle {
        edges' := edges + [e];
      }
      ScannedOther(seen, cycle, p, edges, inc, out, edges', e);
    }
  }

  /** The scan's candidate for a source `u` enters the cycle from `u`. */
  lemma ScannedCandidate(seen: seq<Edge<int>>, cycle: seq<int>, p: set<Edge<int>>,
                         edges: seq<Edge<int>>, inc: map<int, Edge<int>>, out: map<int, Edge<int>>, u: int)
    requires Scanned(seen, cycle, p, edges, inc, out)
    ensures u in inc ==> inc[u].source == u && inc[u].target in cycle
  {
    assert Lookup(inc, u) == FirstMin(EnteringFrom(seen, cycle, u), ReducedKey(p));
  }

  /** The three parts of `Scanned`, gathered. */
  lemma ScannedOf(seen: seq<Edge<int>>, cycle: seq<int>, p: set<Edge<int>>,
                  edges: seq<Edge<int>>, inc: map<int, Edge<int>>, out: map<int, Edge<int>>)
    requires edges == Unrelated(seen, cycle)
    requires forall u {:trigger Lookup(inc, u)} :: Lookup(inc, u) == FirstMin(EnteringFrom(seen, cycle, u), ReducedKey(p))
    requires forall t {:trigger Lookup(out, t)} :: Lookup(out, t) == FirstMin(LeavingTo(seen, cycle, t), Weight)
    ensures Scanned(seen, cycle, p, edges, inc, out)
  {
  }

  /** The unrelated edges after one more edge. */
  lemma UnrelatedSnoc(seen: seq<Edge<int>>, cycle: seq<int>, e: Edge<int>)
    ensures Unrelated(seen + [e], cycle) ==
      Unrelated(seen, cycle) + if e.source !in cycle && e.target !in cycle then [e] else []
  {
    assert (seen + [e])[..|seen|] == seen;
  }

  /** Scanning an edge into the cycle updates only the candidate of its source. */
  lemma ScannedEntering(seen: seq<Edge<int>>, cycle: seq<int>, p: set<Edge<int>>,
                        edges: seq<Edge<int>>, inc: map<int, Edge<int>>, out: map<int, Edge<int>>,
                        inc': map<int, Edge<int>>, e: Edge<int>)
    requires Scanned(seen, cycle, p, edges, inc, out)
    requires e.source !in cycle && e.target in cycle
    requires Lookup(inc', e.source) == Offered(p, Lookup(inc, e.source), e)
    requires forall u {:trigger Lookup(inc', u)} :: u != e.source ==> Lookup(inc', u) == Lookup(inc, u)
    ensures Scanned(seen + [e], cycle, p, edges, inc', out)
  {
    UnrelatedSnoc(seen, cycle, e);
    OfferedCandidate(seen, cycle, p, e);
    OfferedElsewhere(seen, cycle, p, inc, inc', e);
    forall t ensures Lookup(out, t) == FirstMin(LeavingTo(seen + [e], cycle, t), Weight) {
      LeavingToSkip(seen, cycle, t, e);
    }
    ScannedOf(seen + [e], cycle, p, edges, inc', out);
  }

  /** Scanning an edge out of the cycle updates only the candidate of its target. */
  lemma ScannedLeaving(seen: seq<Edge<int>>, cycle: seq<int>, p: set<Edge<int>>,
                       edges: seq<Edge<int>>, inc: map<int, Edge<int>>, out: map<int, Edge<int>>,
                       out': map<int, Edge<int>>, e: Edge<int>)
    requires Scanned(seen, cycle, p, edges, inc, out)
    requires e.source in cycle && e.target !in cycle
    requires Lookup(out', e.target) == Kept(Lookup(out, e.target), e)
    requires forall t {:trigger Lookup(out', t)} :: t != e.target ==> Lookup(out', t) == Lookup(out, t)
    ensures Scanned(seen + [e], cycle, p, edges, inc, out')
  {
    UnrelatedSnoc(seen, cycle, e);
    LeavingToTake(seen, cycle, e);
    FirstMinSnoc(LeavingTo(seen, cycle, e.target), e, Weight);
    forall t | t != e.target ensures Lookup(out', t) == FirstMin(LeavingTo(seen + [e], cycle, t), Weight) {
      LeavingToSkip(seen, cycle, t, e);
    }
    forall u ensures Lookup(inc, u) == FirstMin(EnteringFrom(seen + [e], cycle, u), ReducedKey(p)) {
      EnteringFromSkip(seen, cycle, u, e);
    }
    ScannedOf(seen + [e], cycle, p, edges, inc, out');
  }

  /** Scanning an edge with both ends on the cycle or both off it changes no candidate;
      an edge with both ends off the cycle is copied. */
  lemma ScannedOther(seen: seq<Edge<int>>, cycle: seq<int>, p: set<Edge<int>>,
                     edges: seq<Edge<int>>, inc: map<int, Edge<int>>, out: map<int, Edge<int>>,
                     edges': seq<Edge<int>>, e: Edge<int>)
    requires Scanned(seen, cycle, p, edges, inc, out)
    requires (e.source in cycle) == (e.target in cycle)
    requires edges' == edges + if e.source !in cycle then [e] else []
    ensures Scanned(seen + [e], cycle, p, edges', inc, out)
  {
    UnrelatedSnoc(seen, cycle, e);
    forall t ensures Lookup(out, t) == FirstMin(LeavingTo(seen + [e], cycle, t), Weight) {
      LeavingToSkip(seen, cycle, t, e);
    }
    forall u ensures Lookup(inc, u) == FirstMin(EnteringFrom(seen + [e], cycle, u), ReducedKey(p)) {
      EnteringFromSkip(seen, cycle, u, e);
    }
    ScannedOf(seen + [e], cycle, p, edges', inc, out);
  }

  /** The candidate for the source of `e` once `e` is offered to the candidate `best`:
      `e` when there was none or when `e` is strictly lighter in reduced weight. */
  ghost function Offered(p: set<Edge<int>>, best: Option<Edge<int>>, e: Edge<int>): Option<Edge<int>> {
    if best.None? || e.weight - PWeight(p, e.target) < best.value.weight - PWeight(p, best.value.target)
    then Some(e) else best
  }

  /** One step of the scan for an edge `e` entering the cycle: `e` replaces the candidate
      of its source when there is none or when its reduced weight is strictly smaller. */
  method OfferEntering(cycle: seq<int>, p: set<Edge<int>>, inc: map<int, Edge<int>>, e: Edge<int>)
    returns (inc': map<int, Edge<int>>)
    requires OnePerTarget(p)
    requires forall v :: v in cycle ==> v in PTargets(p)
    requires e.target in cycle
    requires e.source in inc ==> inc[e.source].target in cycle
    ensures Lookup(inc', e.source) == Offered(p, Lookup(inc, e.source), e)
    ensures forall u :: u != e.source ==> Lookup(inc', u) == Lookup(inc, u)
  {
    var pE := PEdgeInto(p, e.target);
    inc' := inc;
    if e.source !in inc {
      inc' := inc[e.source := e];
    } else {
      var sh := inc[e.source];
      var psh := PEdgeInto(p, sh.target);
      if e.weight - pE.weight < sh.weight - psh.weight {
        inc' := inc[e.source := e];
      }
    }
  }

  /** The scan's candidate for the source of an edge `e` into the cycle, once `e` is seen,
      is `e` offered to the candidate before; a candidate enters the cycle from that
      source. */
  lemma OfferedCandidate(seen: seq<Edge<int>>, cycle: seq<int>, p: set<Edge<int>>, e: Edge<int>)
    requires e.source !in cycle && e.target in cycle
    ensures FirstMin(EnteringFrom(seen, cycle, e.source), ReducedKey(p)).Some? ==>
      FirstMin(EnteringFrom(seen, cycle, e.source), ReducedKey(p)).value.target in cycle
    ensures FirstMin(EnteringFrom(seen + [e], cycle, e.source), ReducedKey(p)) ==
      Offered(p, FirstMin(EnteringFrom(seen, cycle, e.source), ReducedKey(p)), e)
  {
    EnteringFromTake(seen, cycle, e);
    FirstMinSnoc(EnteringFrom(seen, cycle, e.source), e, ReducedKey(p));
  }

  /** Offering `e` leaves the candidates of every other source as they were. */
  lemma OfferedElsewhere(seen: seq<Edge<int>>, cycle: seq<int>, p: set<Edge<int>>,
                         inc: map<int, Edge<int>>, inc': map<int, Edge<int>>, e: Edge<int>)
    requires forall u {:trigger Lookup(inc, u)} :: Lookup(inc, u) == FirstMin(EnteringFrom(seen, cycle, u), ReducedKey(p))
    requires Lookup(inc', e.source) == FirstMin(EnteringFrom(seen + [e], cycle, e.source), ReducedKey(p))
    requires forall u {:trigger Lookup(inc', u)} :: u != e.source ==> Lookup(inc', u) == Lookup(inc, u)
    requires e.source !in cycle && e.target in cycle
    ensures forall u {:trigger Lookup(inc', u)} :: Lookup(inc', u) == FirstMin(EnteringFrom(seen + [e], cycle, u), ReducedKey(p))
  {
    forall u | u != e.source
      ensures Lookup(inc', u) == FirstMin(EnteringFrom(seen + [e], cycle, u), ReducedKey(p))
    {
      EnteringFromSkip(seen, cycle, u, e);
    }
  }

  /** The candidate for the target of `e` once `e` is offered to the candidate `best`:
      `e` when there was none or when the candidate is strictly heavier. */
  function Kept(best: Option<Edge<int>>, e: Edge<int>): Option<Edge<int>> {
    if best.None? || best.value.weight > e.weight then Some(e) else best
  }

  /** One step of the scan for an edge `e` leaving the cycle: `e` replaces the candidate
      of its target when there is none or when the candidate is strictly heavier. */
  method OfferLeaving(out: map<int, Edge<int>>, e: Edge<int>) returns (out': map<int, Edge<int>>)
    ensures Lookup(out', e.target) == Kept(Lookup(out, e.target), e)
    ensures forall t :: t != e.target ==> Lookup(out', t) == Lookup(out, t)
  {
    out' := out;
    var sh := Lookup(out, e.target);
    if sh.None? || sh.value.weight > e.weight {
      out' := out[e.target := e];
    }
  }

  /** The loop of `shrinkCycle` over `shortestIncomming`: one edge `u -> c` per key `u`,
      weighted by the reduced weight of `inc[u]`. */
  method AddEntryEdges(vs: seq<int>, cycle: seq<int>, p: set<Edge<int>>, inc: map<int, Edge<int>>, c: int)
    returns (entries: seq<Edge<int>>)
    requires OnePerTarget(p)
    requires forall v :: v in cycle ==> v in PTargets(p)
    requires forall u :: u in inc ==> inc[u].target in cycle
    ensures entries == EntryEdges(p, vs, inc, c)
  {
    entries := [];
    for i := 0 to |vs|
      invariant entries == EntryEdges(p, vs[..i], inc, c)
    {
      var u := vs[i];
      EntryEdgesNext(p, vs, i, inc, c);
      if u in inc {
        var e := inc[u];
        var pE := PEdgeInto(p, e.target);
        entries := entries + [Edge(u, c, e.weight - pE.weight)];
      }
    }
    EntryEdgesAll(p, vs, inc, c);
  }

  /** One more vertex of `vs` adds its entry edge, if it has a candidate. */
  lemma EntryEdgesNext(p: set<Edge<int>>, vs: seq<int>, i: int, inc: map<int, Edge<int>>, c: int)
    requires 0 <= i < |vs|
    ensures EntryEdges(p, vs[..i + 1], inc, c) ==
      EntryEdges(p, vs[..i], inc, c) + if vs[i] in inc then [EntryEdge(p, inc, c, vs[i])] else []
  {
    assert vs[..i + 1][..i] == vs[..i];
  }

  /** The prefix of all of `vs` is `vs`. */
  lemma EntryEdgesAll(p: set<Edge<int>>, vs: seq<int>, inc: map<int, Edge<int>>, c: int)
    ensures EntryEdges(p, vs[..|vs|], inc, c) == EntryEdges(p, vs, inc, c)
  {
    assert vs[..|vs|] == vs;
  }

  /** The loop of `shrinkCycle` over `shortestOutcomming`: one edge `c -> t` per key `t`,
      with the weight of `out[t]`. */
  method AddExitEdges(vs: seq<int>, out: map<int, Edge<int>>, c: int) returns (exits: seq<Edge<int>>)
    ensures exits == ExitEdges(vs, out, c)
  {
    exits := [];
    for i := 0 to |vs|
      invariant exits == ExitEdges(vs[..i], out, c)
    {
      var t := vs[i];
      assert vs[..i + 1][..i] == vs[..i];
      if t in out {
        exits := exits + [Edge(c, t, out[t].weight)];
      }
    }
    assert vs[..|vs|] == vs;
  }

  /** `shrinkCycle`; the two maps the source fills through its parameters are returned. */
  method ShrinkCycle(g: Graph<int>, cycle: seq<int>, p: set<Edge<int>>, maxVertex: int)
    returns (reduced: Graph<int>, inc: map<int, Edge<int>>, out: map<int, Edge<int>>)
    requires OnePerTarget(p)
    requires forall v :: v in cycle ==> v in PTargets(p)
    ensures IsContraction(g, p, cycle, maxVertex, reduced, inc, out)
  {
    var c := maxVertex + 1;
    var vertices: seq<int> := [];
    for i := 0 to |g.vertices|
      invariant vertices == Outside(g.vertices[..i], cycle)
    {
      assert g.vertices[..i + 1][..i] == g.vertices[..i];
      if g.vertices[i] !in cycle {
        vertices := vertices + [g.vertices[i]];
      }
    }
    assert g.vertices[..|g.vertices|] == g.vertices;
    vertices := vertices + [c];

    var edges;
    edges, inc, out := ScanEdges(g, cycle, p);
    forall u | u in inc ensures inc[u].target in cycle {
      assert Lookup(inc, u) == FirstMin(EnteringFrom(g.edges, cycle, u), ReducedKey(p));
    }
    var entries := AddEntryEdges(g.vertices, cycle, p, inc, c);
    var exits := AddExitEdges(g.vertices, out, c);
    reduced := Graph(vertices, edges + entries + exits);
  }

  /** Where the contraction's maps point: `inc[u]` is an edge of `g` from the outside vertex
      `u` into the cycle, `out[t]` an edge of `g` from the cycle to the outside vertex `t`,
      and every outside vertex with such an edge is a key. */
  lemma ContractionMaps(g: Graph<int>, p: set<Edge<int>>, cycle: seq<int>, maxVertex: int,
                        reduced: Graph<int>, inc: map<int, Edge<int>>, out: map<int, Edge<int>>)
    requires IsContraction(g, p, cycle, maxVertex, reduced, inc, out)
    ensures forall u :: u in inc ==> inc[u] in g.edges && inc[u].source == u && u !in cycle && inc[u].target in cycle
    ensures forall e :: e in g.edges && e.source !in cycle && e.target in cycle ==> e.source in inc
    ensures forall t :: t in out ==> out[t] in g.edges && out[t].target == t && t !in cycle && out[t].source in cycle
    ensures forall e :: e in g.edges && e.source in cycle && e.target !in cycle ==> e.target in out
  {
    forall u | u in inc
      ensures inc[u] in g.edges && inc[u].source == u && u !in cycle && inc[u].target in cycle
    {
      assert Lookup(inc, u) == FirstMin(EnteringFrom(g.edges, cycle, u), ReducedKey(p));
    }
    forall e | e in g.edges && e.source !in cycle && e.target in cycle
      ensures e.source in inc
    {
      assert e in EnteringFrom(g.edges, cycle, e.source);
      assert Lookup(inc, e.source) == FirstMin(EnteringFrom(g.edges, cycle, e.source), ReducedKey(p));
    }
    forall t | t in out
      ensures out[t] in g.edges && out[t].target == t && t !in cycle && out[t].source in cycle
    {
      assert Lookup(out, t) == FirstMin(LeavingTo(g.edges, cycle, t), Weight);
    }
    forall e | e in g.edges && e.source in cycle && e.target !in cycle
      ensures e.target in out
    {
      assert e in LeavingTo(g.edges, cycle, e.target);
      assert Lookup(out, e.target) == FirstMin(LeavingTo(g.edges, cycle, e.target), Weight);
    }
  }

  /** The reduced vertices are the vertices off the cycle and the fresh cycle vertex
      `maxVertex + 1`, which no vertex of `g` already is. */
  lemma ContractionVertices(g: Graph<int>, p: set<Edge<int>>, cycle: seq<int>, maxVertex: int,
                            reduced: Graph<int>, inc: map<int, Edge<int>>, out: map<int, Edge<int>>)
    requires IsContraction(g, p, cycle, maxVertex, reduced, inc, out)
    requires forall v :: v in g.vertices ==> v <= maxVertex
    ensures maxVertex + 1 !in g.vertices
    ensures forall v :: v in reduced.vertices <==> (v in g.vertices && v !in cycle) || v == maxVertex + 1
    ensures forall v :: v in reduced.vertices ==> v <= maxVertex + 1
  {
  }

  lemma {:induction false} OutsideDistinct(vs: seq<int>, cycle: seq<int>)
    requires Distinct(vs)
    ensures Distinct(Outside(vs, cycle))
  {
    if vs != [] {
      var init := vs[..|vs| - 1];
      OutsideDistinct(init, cycle);
      assert vs[|vs| - 1] !in init;
    }
  }

  lemma {:induction false} OutsideDropsOne(vs: seq<int>, cycle: seq<int>, a: int)
    requires a in vs && a in cycle
    ensures |Outside(vs, cycle)| + 1 <= |vs|
  {
    var init := vs[..|vs| - 1];
    assert vs == init + [vs[|vs| - 1]];
    if vs[|vs| - 1] != a {
      OutsideDropsOne(init, cycle, a);
    }
  }

  lemma {:induction false} OutsideDropsTwo(vs: seq<int>, cycle: seq<int>, a: int, b: int)
    requires a != b && a in vs && b in vs && a in cycle && b in cycle
    ensures |Outside(vs, cycle)| + 2 <= |vs|
  {
    var init := vs[..|vs| - 1];
    assert vs == init + [vs[|vs| - 1]];
    if vs[|vs| - 1] == a {
      OutsideDropsOne(init, cycle, b);
    } else if vs[|vs| - 1] == b {
      OutsideDropsOne(init, cycle, a);
    } else {
      OutsideDropsTwo(init, cycle, a, b);
    }
  }

  /** A cycle has at least two vertices, so the reduced graph has fewer vertices: the
      recursion of the finder terminates. */
  lemma ContractionShrinks(g: Graph<int>, p: set<Edge<int>>, cycle: seq<int>, maxVertex: int,
                           reduced: Graph<int>, inc: map<int, Edge<int>>, out: map<int, Edge<int>>)
    requires IsContraction(g, p, cycle, maxVertex, reduced, inc, out)
    requires IsCycleOf(g.vertices, p, cycle)
    ensures |reduced.vertices| < |g.vertices|
  {
    OutsideDropsTwo(g.vertices, cycle, cycle[0], cycle[1]);
  }

  /** The contraction of a simple graph is simple. */
  lemma ContractionSimple(g: Graph<int>, p: set<Edge<int>>, cycle: seq<int>, maxVertex: int,
                          reduced: Graph<int>, inc: map<int, Edge<int>>, out: map<int, Edge<int>>)
    requires IsContraction(g, p, cycle, maxVertex, reduced, inc, out)
    requires Simple(g)
    requires forall v :: v in g.vertices ==> v <= maxVertex
    ensures Simple(reduced)
  {
    var c := maxVertex + 1;
    ContractionMaps(g, p, cycle, maxVertex, reduced, inc, out);
    OutsideDistinct(g.vertices, cycle);
    var outside := Outside(g.vertices, cycle);
    assert c !in outside;
    forall i, j | 0 <= i < j < |reduced.vertices| ensures reduced.vertices[i] != reduced.vertices[j] {
      if j == |outside| {
        assert reduced.vertices[i] == outside[i];
      } else {
        assert reduced.vertices[i] == outside[i] && reduced.vertices[j] == outside[j];
      }
    }
    forall e | e in reduced.edges
      ensures e.source in reduced.vertices && e.target in reduced.vertices && e.source != e.target
    {
      if e in EntryEdges(p, g.vertices, inc, c) {
        assert inc[e.source] in g.edges;
      } else if e in ExitEdges(g.vertices, out, c) {
        assert out[e.target] in g.edges;
      }
    }
    forall e1, e2 | e1 in reduced.edges && e2 in reduced.edges && e1.source == e2.source && e1.target == e2.target
      ensures e1 == e2
    {
      if e1.target == c && e1.source != c {
        assert inc[e1.source] in g.edges;
      } else if e1.source == c && e1.target != c {
        assert out[e1.target] in g.edges;
      }
    }
  }

  /** Edges with both endpoints off the cycle are copied unchanged, and every reduced edge
      that does not touch the cycle vertex is such an edge (edges inside the cycle are
      dropped). */
  lemma ContractionKeepsOutsideEdges(g: Graph<int>, p: set<Edge<int>>, cycle: seq<int>, maxVertex: int,
                                     reduced: Graph<int>, inc: map<int, Edge<int>>, out: map<int, Edge<int>>)
    requires IsContraction(g, p, cycle, maxVertex, reduced, inc, out)
    ensures forall e :: e in g.edges && e.source !in cycle && e.target !in cycle ==> e in reduced.edges
    ensures forall e :: e in reduced.edges && e.source != maxVertex + 1 && e.target != maxVertex + 1 ==>
      e in g.edges && e.source !in cycle && e.target !in cycle
  {
  }

  /** For an outside vertex `u`, the reduced graph has an edge `u -> c` exactly when `g` has
      an edge from `u` into the cycle. */
  lemma ContractionEntryExists(g: Graph<int>, p: set<Edge<int>>, cycle: seq<int>, maxVertex: int,
                               reduced: Graph<int>, inc: map<int, Edge<int>>, out: map<int, Edge<int>>, u: int)
    requires IsContraction(g, p, cycle, maxVertex, reduced, inc, out)
    requires Simple(g)
    requires forall v :: v in g.vertices ==> v <= maxVertex
    requires u in g.vertices && u !in cycle
    ensures (exists e :: e in reduced.edges && e.source == u && e.target == maxVertex + 1) <==>
            (exists e :: e in g.edges && e.source == u && e.target in cycle)
  {
    EntryOnlyFromEntering(g, p, cycle, maxVertex, reduced, inc, out, u);
    EnteringGivesEntry(g, p, cycle, maxVertex, reduced, inc, out, u);
  }

  lemma EntryOnlyFromEntering(g: Graph<int>, p: set<Edge<int>>, cycle: seq<int>, maxVertex: int,
                              reduced: Graph<int>, inc: map<int, Edge<int>>, out: map<int, Edge<int>>, u: int)
    requires IsContraction(g, p, cycle, maxVertex, reduced, inc, out)
    requires Simple(g)
    requires forall v :: v in g.vertices ==> v <= maxVertex
    requires u in g.vertices && u !in cycle
    ensures (exists e :: e in reduced.edges && e.source == u && e.target == maxVertex + 1) ==>
            (exists e :: e in g.edges && e.source == u && e.target in cycle)
  {
    var c := maxVertex + 1;
    ContractionMaps(g, p, cycle, maxVertex, reduced, inc, out);
    if e :| e in reduced.edges && e.source == u && e.target == c {
      assert e in EntryEdges(p, g.vertices, inc, c);
      assert inc[u] in g.edges;
    }
  }

  lemma EnteringGivesEntry(g: Graph<int>, p: set<Edge<int>>, cycle: seq<int>, maxVertex: int,
                           reduced: Graph<int>, inc: map<int, Edge<int>>, out: map<int, Edge<int>>, u: int)
    requires IsContraction(g, p, cycle, maxVertex, reduced, inc, out)
    requires u in g.vertices && u !in cycle
    ensures (exists e :: e in g.edges && e.source == u && e.target in cycle) ==>
            (exists e :: e in reduced.edges && e.source == u && e.target == maxVertex + 1)
  {
    var c := maxVertex + 1;
    ContractionMaps(g, p, cycle, maxVertex, reduced, inc, out);
    if u in inc {
      assert EntryEdge(p, inc, c, u) in EntryEdges(p, g.vertices, inc, c);
    }
  }

  /** The weight of a reduced edge `u -> c` is the least reduced weight
      `w(e) - w(P-edge into target(e))` over the edges `e` from `u` into the cycle, and
      `inc[u]` is the first of those edges that attains it. */
  lemma ContractionEntryWeight(g: Graph<int>, p: set<Edge<int>>, cycle: seq<int>, maxVertex: int,
                               reduced: Graph<int>, inc: map<int, Edge<int>>, out: map<int, Edge<int>>, e: Edge<int>)
    requires IsContraction(g, p, cycle, maxVertex, reduced, inc, out)
    requires Simple(g)
    requires forall v :: v in g.vertices ==> v <= maxVertex
    requires e in reduced.edges && e.target == maxVertex + 1
    ensures e.source in inc && e.weight == inc[e.source].weight - PWeight(p, inc[e.source].target)
    ensures forall x :: x in g.edges && x.source == e.source && x.target in cycle ==>
              e.weight <= x.weight - PWeight(p, x.target)
    ensures exists k :: IsFirstMinimum(EnteringFrom(g.edges, cycle, e.source), k, ReducedKey(p))
                        && EnteringFrom(g.edges, cycle, e.source)[k] == inc[e.source]
  {
    var c := maxVertex + 1;
    var u := e.source;
    var entering := EnteringFrom(g.edges, cycle, u);
    ContractionMaps(g, p, cycle, maxVertex, reduced, inc, out);
    assert e in EntryEdges(p, g.vertices, inc, c);
    assert Lookup(inc, u) == FirstMin(entering, ReducedKey(p));
    forall x | x in g.edges && x.source == u && x.target in cycle
      ensures e.weight <= x.weight - PWeight(p, x.target)
    {
      assert x in entering;
      FirstMinIsLeast(entering, ReducedKey(p), x);
    }
    FirstMinIsFirstMinimum(entering, ReducedKey(p));
  }

  /** For an outside vertex `t`, the reduced graph has an edge `c -> t` exactly when `g` has
      an edge from the cycle to `t`. */
  lemma ContractionExitExists(g: Graph<int>, p: set<Edge<int>>, cycle: seq<int>, maxVertex: int,
                              reduced: Graph<int>, inc: map<int, Edge<int>>, out: map<int, Edge<int>>, t: int)
    requires IsContraction(g, p, cycle, maxVertex, reduced, inc, out)
    requires Simple(g)
    requires forall v :: v in g.vertices ==> v <= maxVertex
    requires t in g.vertices && t !in cycle
    ensures (exists e :: e in reduced.edges && e.source == maxVertex + 1 && e.target == t) <==>
            (exists e :: e in g.edges && e.source in cycle && e.target == t)
  {
    ExitOnlyToLeaving(g, p, cycle, maxVertex, reduced, inc, out, t);
    LeavingGivesExit(g, p, cycle, maxVertex, reduced, inc, out, t);
  }

  lemma ExitOnlyToLeaving(g: Graph<int>, p: set<Edge<int>>, cycle: seq<int>, maxVertex: int,
                          reduced: Graph<int>, inc: map<int, Edge<int>>, out: map<int, Edge<int>>, t: int)
    requires IsContraction(g, p, cycle, maxVertex, reduced, inc, out)
    requires Simple(g)
    requires forall v :: v in g.vertices ==> v <= maxVertex
    requires t in g.vertices && t !in cycle
    ensures (exists e :: e in reduced.edges && e.source == maxVertex + 1 && e.target == t) ==>
            (exists e :: e in g.edges && e.source in cycle && e.target == t)
  {
    var c := maxVertex + 1;
    ContractionMaps(g, p, cycle, maxVertex, reduced, inc, out);
    if e :| e in reduced.edges && e.source == c && e.target == t {
      assert e in ExitEdges(g.vertices, out, c);
      assert out[t] in g.edges;
    }
  }

  lemma LeavingGivesExit(g: Graph<int>, p: set<Edge<int>>, cycle: seq<int>, maxVertex: int,
                         reduced: Graph<int>, inc: map<int, Edge<int>>, out: map<int, Edge<int>>, t: int)
    requires IsContraction(g, p, cycle, maxVertex, reduced, inc, out)
    requires t in g.vertices && t !in cycle
    ensures (exists e :: e in g.edges && e.source in cycle && e.target == t) ==>
            (exists e :: e in reduced.edges && e.source == maxVertex + 1 && e.target == t)
  {
    var c := maxVertex + 1;
    ContractionMaps(g, p, cycle, maxVertex, reduced, inc, out);
    if t in out {
      assert Edge(c, t, out[t].weight) in ExitEdges(g.vertices, out, c);
    }
  }

  /** The weight of a reduced edge `c -> t` is the least weight of the edges from the cycle
      to `t`, and `out[t]` is the first of those edges that attains it. */
  lemma ContractionExitWeight(g: Graph<int>, p: set<Edge<int>>, cycle: seq<int>, maxVertex: int,
                              reduced: Graph<int>, inc: map<int, Edge<int>>, out: map<int, Edge<int>>, e: Edge<int>)
    requires IsContraction(g, p, cycle, maxVertex, reduced, inc, out)
    requires Simple(g)
    requires forall v :: v in g.vertices ==> v <= maxVertex
    requires e in reduced.edges && e.source == maxVertex + 1
    ensures e.target in out && e.weight == out[e.target].weight
    ensures forall x :: x in g.edges && x.source in cycle && x.target == e.target ==> e.weight <= x.weight
    ensures exists k :: IsFirstMinimum(LeavingTo(g.edges, cycle, e.target), k, Weight)
                        && LeavingTo(g.edges, cycle, e.target)[k] == out[e.target]
  {
    var c := maxVertex + 1;
    var t := e.target;
    var leaving := LeavingTo(g.edges, cycle, t);
    assert e in ExitEdges(g.vertices, out, c);
    assert Lookup(out, t) == FirstMin(leaving, Weight);
    forall x | x in g.edges && x.source in cycle && x.target == t
      ensures e.weight <= x.weight
    {
      assert x in leaving;
      FirstMinIsLeast(leaving, Weight, x);
    }
    FirstMinIsFirstMinimum(leaving, Weight);
  }

  /** If every cut of `g` is entered, every cut of the contraction is: a reduced cut is the
      image of the cut of `g` that holds the whole cycle when it holds the cycle vertex. */
  lemma ContractionKeepsCuts(g: Graph<int>, p: set<Edge<int>>, cycle: seq<int>, maxVertex: int,
                             reduced: Graph<int>, inc: map<int, Edge<int>>, out: map<int, Edge<int>>, root: int)
    requires IsContraction(g, p, cycle, maxVertex, reduced, inc, out)
    requires Simple(g)
    requires forall v :: v in g.vertices ==> v <= maxVertex
    requires |cycle| >= 1 && (forall v :: v in cycle ==> v in g.vertices) && root !in cycle
    requires EveryCutEntered(g, root)
    ensures EveryCutEntered(reduced, root)
  {
    var c := maxVertex + 1;
    ContractionVertices(g, p, cycle, maxVertex, reduced, inc, out);
    ContractionKeepsOutsideEdges(g, p, cycle, maxVertex, reduced, inc, out);
    forall e | e in g.edges && e.source !in cycle && e.target in cycle
      ensures HasEdge(reduced, e.source, c)
    {
      ContractionEntryExists(g, p, cycle, maxVertex, reduced, inc, out, e.source);
    }
    forall e | e in g.edges && e.source in cycle && e.target !in cycle
      ensures HasEdge(reduced, c, e.target)
    {
      ContractionExitExists(g, p, cycle, maxVertex, reduced, inc, out, e.target);
    }
    forall S': set<int> | S' != {} && root !in S' && (forall v :: v in S' ==> v in reduced.vertices)
      ensures EnteredFromOutside(reduced, S')
    {
      ContractionKeepsCut(g, reduced, cycle, c, root, S');
    }
  }

  /** A set of reduced vertices without the root is entered: the set it stands for in `g`,
      the cycle put back in place of its vertex `c`, is entered by an edge of `g`, which the
      contraction keeps or redirects to or from `c`. */
  lemma ContractionKeepsCut(g: Graph<int>, reduced: Graph<int>, cycle: seq<int>, c: int, root: int, S': set<int>)
    requires c !in g.vertices && Simple(g)
    requires forall v :: v in reduced.vertices <==> (v in g.vertices && v !in cycle) || v == c
    requires forall e :: e in g.edges && e.source !in cycle && e.target in cycle ==> HasEdge(reduced, e.source, c)
    requires forall e :: e in g.edges && e.source in cycle && e.target !in cycle ==> HasEdge(reduced, c, e.target)
    requires forall e :: e in g.edges && e.source !in cycle && e.target !in cycle ==> e in reduced.edges
    requires |cycle| >= 1 && (forall v :: v in cycle ==> v in g.vertices) && root !in cycle
    requires EveryCutEntered(g, root)
    requires S' != {} && root !in S' && (forall v :: v in S' ==> v in reduced.vertices)
    ensures EnteredFromOutside(reduced, S')
  {
    var S := (S' - {c}) + (if c in S' then (set v | v in cycle) else {});
    if S' - {c} == {} {
      assert cycle[0] in S;
    }
    assert EnteredFromOutside(g, S);
    var e :| e in g.edges && e.source !in S && e.target in S;
    if e.target in cycle {
      var x :| x in reduced.edges && x.source == e.source && x.target == c;
      CutEdge(g, reduced, cycle, c, S', S, e, x);
    } else if e.source in cycle {
      var x :| x in reduced.edges && x.source == c && x.target == e.target;
      CutEdge(g, reduced, cycle, c, S', S, e, x);
    } else {
      CutEdge(g, reduced, cycle, c, S', S, e, e);
    }
  }

  /** An edge of `g` entering `S`, the set a reduced set `S'` stands for, enters `S'` once
      its cycle ends are moved to the cycle vertex `c`. */
  lemma CutEdge(g: Graph<int>, reduced: Graph<int>, cycle: seq<int>, c: int, S': set<int>, S: set<int>,
                e: Edge<int>, x: Edge<int>)
    requires c !in g.vertices && Simple(g)
    requires forall v :: v in reduced.vertices <==> (v in g.vertices && v !in cycle) || v == c
    requires forall v :: v in S' ==> v in reduced.vertices
    requires S == (S' - {c}) + (if c in S' then (set v | v in cycle) else {})
    requires e in g.edges && e.source !in S && e.target in S
    requires x.source == (if e.source in cycle then c else e.source)
    requires x.target == (if e.target in cycle then c else e.target)
    ensures x.source !in S' && x.target in S'
  {
  }

}
