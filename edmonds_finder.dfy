/** The recursion of the integer arborescence finder
    (`IntegerEdmondsMinimumSpanningArborescenceFinder.findMinimumSpanningArborescence`):
    P-edges, a cycle among them, contraction, the recursive call on the contraction and
    expansion of its result. */
module EdmondsFinder {
  import opened Outcomes
  import opened Minimum
  import opened Digraph
  import opened EdmondsSelection
  import opened EdmondsContraction
  import opened EdmondsExpansion
  import opened EdmondsRanking

  /** The P-edges as `findPEdges` returns them. */
  ghost predicate ArePEdges(g: Graph<int>, root: int, p: set<Edge<int>>) {
    forall e :: e in p <==> e.target in g.vertices && e.target != root && CheapestInto(g, e.target) == Some(e)
  }

  /** The P-edges are edges of `g` and none of them enters the root. */
  lemma PEdgesInGraph(g: Graph<int>, root: int, p: set<Edge<int>>)
    requires ArePEdges(g, root, p)
    ensures forall e :: e in p ==> e in g.edges && e.target != root
  {
    forall e | e in p ensures e in g.edges && e.target != root {
      CheapestIntoIsFirstCheapest(g, e.target);
    }
  }

  /** When every cut is entered, the P-edges already give every vertex but the root exactly
      one incoming edge; the finder returns them when they hold no cycle. */
  lemma PEdgesOneEdgeIntoEach(g: Graph<int>, root: int, p: set<Edge<int>>)
    requires ArePEdges(g, root, p) && EveryCutEntered(g, root)
    ensures OneEdgeIntoEach(g, root, p)
  {
    PEdgesInGraph(g, root, p);
    forall v | v in g.vertices && v != root ensures exists e :: e in p && e.target == v {
      CutGivesIncomingEdge(g, root, v);
      CheapestIntoIsFirstCheapest(g, v);
      var x := EdgesInto(g.edges, v)[0];
      assert x in g.edges && x.target == v;
      var m := CheapestInto(g, v).value;
      assert m in p;
    }
  }

  /** Every vertex of a cycle of P-edges is entered by a P-edge, so the root is not on it. */
  lemma PCycleTargets(g: Graph<int>, root: int, p: set<Edge<int>>, cycle: seq<int>)
    requires ArePEdges(g, root, p) && IsCycleOf(g.vertices, p, cycle)
    ensures forall v :: v in cycle ==> v in PTargets(p)
    ensures root !in cycle
  {
    forall v | v in cycle ensures v in PTargets(p) {
      var i :| 0 <= i < |cycle| && cycle[i] == v;
      if i == 0 {
        assert Joined(p, cycle[|cycle| - 1], cycle[0]);
      } else {
        assert Joined(p, cycle[i - 1], cycle[i]);
      }
    }
  }

  /** `findMinimumSpanningArborescence`: the P-edges when they hold no cycle, and otherwise
      the expansion of the arborescence of the contracted graph. Its result consists of
      edges of `g` none of which enters the root, admits a topological numbering, and
      when every cut of `g` is entered it is a spanning arborescence of `g`. */
  method FindMinimumSpanningArborescence(g: Graph<int>, root: int, maxVertex: int,
                                         simpleCycles: (seq<int>, set<Edge<int>>) -> seq<seq<int>>)
    returns (r: Result<set<Edge<int>>, Error>)
    requires Simple(g)
    requires forall v :: v in g.vertices ==> v <= maxVertex
    requires CycleEnumerator(simpleCycles)
    ensures r.Ok? ==> forall e :: e in r.value ==> e in g.edges && e.target != root
    ensures r.Ok? ==> Ranked(r.value)
    ensures EveryCutEntered(g, root) ==> r.Ok? && SpanningArborescence(g, root, r.value)
    decreases |g.vertices|
  {
    var p := FindPEdges(g, root);
    PEdgesInGraph(g, root, p);
    var cycle := GetArbitraryCycle(g, p, simpleCycles);
    PEdgesOnePerTarget(g, root, p);
    if cycle.None? {
      AcyclicRanked(g.vertices, p);
      if EveryCutEntered(g, root) {
        PEdgesOneEdgeIntoEach(g, root, p);
        RankedIsSpanning(g, root, p);
      }
      return Ok(p);
    }
    var cy := cycle.value;
    PCycleTargets(g, root, p, cy);
    var reduced, inc, out := ShrinkCycle(g, cy, p, maxVertex);
    var c := maxVertex + 1;
    ContractionShrinks(g, p, cy, maxVertex, reduced, inc, out);
    ContractionSimple(g, p, cy, maxVertex, reduced, inc, out);
    ContractionVertices(g, p, cy, maxVertex, reduced, inc, out);
    ContractionGivesContext(g, p, cy, maxVertex, reduced, inc, out);
    if EveryCutEntered(g, root) {
      ContractionKeepsCuts(g, p, cy, maxVertex, reduced, inc, out, root);
    }
    var reducedArb := FindMinimumSpanningArborescence(reduced, root, c, simpleCycles);
    if reducedArb.Err? {
      return Err(reducedArb.error);
    }
    if EveryCutEntered(g, root) {
      CutsHoldRoot(g, root);
    }
    r := ExpandArborescence(g, cy, c, reduced, inc, out, root, reducedArb.value);
    if EveryCutEntered(g, root) {
      RankedIsSpanning(g, root, r.value);
    }
  }

  /** The end of `getSpanningArborescence` once the arborescence `redArb` of the reduced
      graph is known: `markEdges` puts the cycle back, and the result keeps the promises
      of the finder. */
  method ExpandArborescence(g: Graph<int>, cycle: seq<int>, c: int, reduced: Graph<int>,
                            inc: map<int, Edge<int>>, out: map<int, Edge<int>>,
                            root: int, redArb: set<Edge<int>>)
    returns (r: Result<set<Edge<int>>, Error>)
    requires ExpansionContext(g, cycle, c, reduced, inc, out)
    requires forall e :: e in redArb ==> e in reduced.edges && e.target != root
    requires root !in cycle && Ranked(redArb)
    requires EveryCutEntered(g, root) ==> root in g.vertices && OneEdgeIntoEach(reduced, root, redArb)
    ensures r.Ok? ==> forall e :: e in r.value ==> e in g.edges && e.target != root
    ensures r.Ok? ==> Ranked(r.value)
    ensures EveryCutEntered(g, root) ==> r.Ok? && OneEdgeIntoEach(g, root, r.value)
  {
    r := MarkEdges(g, redArb, cycle, c, inc, out);
    if r.Ok? {
      ghost var a :| IntoCycle(redArb, c) == {a} && r.value == Expanded(g, redArb, cycle, c, inc, out, a);
      ExpansionEdgesInGraph(g, cycle, c, reduced, inc, out, root, redArb, a);
      ExpansionRanked(g, cycle, c, reduced, inc, out, redArb, a);
    }
    if EveryCutEntered(g, root) {
      ArborescenceEntersCycleOnce(g, cycle, c, reduced, inc, out, root, redArb);
      ghost var a :| IntoCycle(redArb, c) == {a} && r.value == Expanded(g, redArb, cycle, c, inc, out, a);
      ExpansionOneEdgeIntoEach(g, cycle, c, reduced, inc, out, root, redArb, a);
    }
  }

  /** `IntegerEdmondsMinimumSpanningArborescenceFinder.getSpanningArborescence`: the
      recursion started with `maxVertex` the number of vertices, which bounds every vertex
      when the vertices are numbered from 1. Its result holds no cycle, and it is a
      spanning arborescence whenever every vertex can be reached from the root. */
  method IntegerGetSpanningArborescence(g: Graph<int>, root: int,
                                        simpleCycles: (seq<int>, set<Edge<int>>) -> seq<seq<int>>)
    returns (r: Result<set<Edge<int>>, Error>)
    requires Simple(g)
    requires forall v :: v in g.vertices ==> v <= |g.vertices|
    requires CycleEnumerator(simpleCycles)
    ensures r.Ok? ==> forall e :: e in r.value ==> e in g.edges && e.target != root
    ensures r.Ok? ==> Ranked(r.value) && Acyclic(g.vertices, r.value)
    ensures EveryCutEntered(g, root) ==> r.Ok? && SpanningArborescence(g, root, r.value)
    ensures AllReachable(g, root) ==> r.Ok? && SpanningArborescence(g, root, r.value)
  {
    var maxVertex := |g.vertices|;
    if AllReachable(g, root) {
      ReachableGivesCuts(g, root);
    }
    r := FindMinimumSpanningArborescence(g, root, maxVertex, simpleCycles);
    if r.Ok? {
      RankedAcyclic(g.vertices, r.value);
    }
  }
}
