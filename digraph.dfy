/** The weighted directed graph the arborescence finder works on: the jgrapht
    `SimpleDirectedWeightedGraph` of the source, kept as its vertex and edge lists in
    iteration (insertion) order, with the reachability and in-degree notions the
    finder's result is stated in. */
module Digraph {
  import opened Outcomes

  /** A weighted directed edge (source, target, weight). */
  datatype Edge<V> = Edge(source: V, target: V, weight: int)

  /** The vertex list and the edge list of a graph, in iteration order. */
  datatype Graph<V> = Graph(vertices: seq<V>, edges: seq<Edge<V>>)

  ghost predicate Distinct<T>(s: seq<T>) {
    forall i, j :: 0 <= i < j < |s| ==> s[i] != s[j]
  }

  /** What a simple directed graph guarantees: distinct vertices, edges only between
      vertices of the graph, no self-loop and at most one edge per ordered pair. */
  ghost predicate Simple<V>(g: Graph<V>) {
    && Distinct(g.vertices)
    && (forall e :: e in g.edges ==> e.source in g.vertices && e.target in g.vertices && e.source != e.target)
    && (forall e1, e2 :: e1 in g.edges && e2 in g.edges && e1.source == e2.source && e1.target == e2.target ==> e1 == e2)
  }

  /** The weight of an edge, the key the cheapest-edge scans compare. */
  function Weight<V>(e: Edge<V>): int {
    e.weight
  }

  /** `incomingEdgesOf(v)`: the edges into `v`, in edge order. */
  function EdgesInto<V(==,!new)>(es: seq<Edge<V>>, v: V): (r: seq<Edge<V>>)
    ensures forall e :: e in r <==> e in es && e.target == v
  {
    if es == [] then []
    else EdgesInto(es[..|es| - 1], v) + (if es[|es| - 1].target == v then [es[|es| - 1]] else [])
  }

  /** `getEdge(s, t)`: the first edge from `s` to `t`, or `None` (the source's `null`). */
  function GetEdge<V(==)>(es: seq<Edge<V>>, s: V, t: V): (r: Option<Edge<V>>)
    ensures r.Some? ==> r.value in es && r.value.source == s && r.value.target == t
    ensures r.None? ==> forall e :: e in es ==> !(e.source == s && e.target == t)
  {
    if es == [] then None
    else if es[0].source == s && es[0].target == t then Some(es[0])
    else GetEdge(es[1..], s, t)
  }

  ghost predicate HasEdge<V>(g: Graph<V>, s: V, t: V) {
    exists e :: e in g.edges && e.source == s && e.target == t
  }

  /** A walk along edges of `g` (at least one vertex). */
  ghost predicate IsPath<V>(g: Graph<V>, p: seq<V>) {
    |p| >= 1 && forall i :: 0 <= i < |p| - 1 ==> HasEdge(g, p[i], p[i + 1])
  }

  ghost predicate Reaches<V(!new)>(g: Graph<V>, root: V, v: V) {
    exists p :: IsPath(g, p) && p[0] == root && p[|p| - 1] == v
  }

  /** Every vertex of `g` can be reached from `root`. */
  ghost predicate AllReachable<V(!new)>(g: Graph<V>, root: V) {
    forall v :: v in g.vertices ==> Reaches(g, root, v)
  }

  /** Some edge of `g` leads from outside `S` into `S`. */
  ghost predicate EnteredFromOutside<V>(g: Graph<V>, S: set<V>) {
    exists e :: e in g.edges && e.source !in S && e.target in S
  }

  /** The cut form of reachability: every non-empty set of vertices without the root is
      entered by some edge from outside it. */
  ghost predicate EveryCutEntered<V(!new)>(g: Graph<V>, root: V) {
    forall S: set<V> {:trigger EnteredFromOutside(g, S)} ::
      S != {} && root !in S && (forall v :: v in S ==> v in g.vertices) ==> EnteredFromOutside(g, S)
  }

  /** What an arborescence finder promises of its edge set `A`: edges of `g` only, none
      into the root, and exactly one into every other vertex. */
  ghost predicate OneEdgeIntoEach<V>(g: Graph<V>, root: V, A: set<Edge<V>>) {
    && (forall e :: e in A ==> e in g.edges && e.target != root)
    && (forall v :: v in g.vertices && v != root ==> exists e :: e in A && e.target == v)
    && (forall e1, e2 :: e1 in A && e2 in A && e1.target == e2.target ==> e1 == e2)
  }

  /** Some edge of `A` goes from `s` to `t`. */
  ghost predicate Joined<V>(A: set<Edge<V>>, s: V, t: V) {
    exists e :: e in A && e.source == s && e.target == t
  }

  /** `rank` grows along every edge of `A`. */
  ghost predicate RanksEdges<V>(A: set<Edge<V>>, rank: V -> nat) {
    forall e :: e in A ==> rank(e.source) < rank(e.target)
  }

  /** The vertices can be numbered so that every edge of `A` leads to a larger number: a
      topological numbering, so that no walk along `A` comes back to where it started. */
  ghost predicate Ranked<V(!new)>(A: set<Edge<V>>) {
    exists rank: V -> nat :: RanksEdges(A, rank)
  }

  /** A walk along edges of `A` (at least one vertex). */
  ghost predicate PathAlong<V>(A: set<Edge<V>>, p: seq<V>) {
    |p| >= 1 && forall i :: 0 <= i < |p| - 1 ==> Joined(A, p[i], p[i + 1])
  }

  ghost predicate ReachesAlong<V(!new)>(A: set<Edge<V>>, root: V, v: V) {
    exists p :: PathAlong(A, p) && p[0] == root && p[|p| - 1] == v
  }

  /** `A` is a spanning arborescence of `g` rooted at `root`: exactly one edge of `g` into
      every vertex but the root and none into the root, no cycle, and a path along `A`
      from the root to every vertex. */
  ghost predicate SpanningArborescence<V(!new)>(g: Graph<V>, root: V, A: set<Edge<V>>) {
    && OneEdgeIntoEach(g, root, A)
    && Ranked(A)
    && (forall v :: v in g.vertices ==> ReachesAlong(A, root, v))
  }

  /** Following the only edge into each vertex back from `v` leads to the root, because the
      numbering falls at every step: an acyclic choice of one incoming edge per vertex
      reaches every vertex from the root. */
  lemma {:induction false} ReachedFromRoot<V(!new)>(g: Graph<V>, root: V, A: set<Edge<V>>, rank: V -> nat, v: V)
    requires Simple(g) && OneEdgeIntoEach(g, root, A) && RanksEdges(A, rank)
    requires v in g.vertices
    ensures ReachesAlong(A, root, v)
    decreases rank(v)
  {
    if v == root {
      assert PathAlong(A, [root]);
    } else {
      var e :| e in A && e.target == v;
      assert e in g.edges && rank(e.source) < rank(v);
      ReachedFromRoot(g, root, A, rank, e.source);
      var p :| PathAlong(A, p) && p[0] == root && p[|p| - 1] == e.source;
      var q := p + [v];
      forall i | 0 <= i < |q| - 1 ensures Joined(A, q[i], q[i + 1]) {
        if i < |p| - 1 {
          assert q[i] == p[i] && q[i + 1] == p[i + 1];
        } else {
          assert q[i] == e.source && q[i + 1] == v;
        }
      }
      assert PathAlong(A, q);
    }
  }

  /** A ranked choice of one incoming edge per vertex is a spanning arborescence. */
  lemma RankedIsSpanning<V(!new)>(g: Graph<V>, root: V, A: set<Edge<V>>)
    requires Simple(g) && OneEdgeIntoEach(g, root, A) && Ranked(A)
    ensures SpanningArborescence(g, root, A)
  {
    var rank :| RanksEdges(A, rank);
    forall v | v in g.vertices ensures ReachesAlong(A, root, v) {
      ReachedFromRoot(g, root, A, rank, v);
    }
  }

  /** A walk that starts outside `S` and ends inside it crosses into `S` along some edge. */
  lemma {:induction false} PathCrossesCut<V>(g: Graph<V>, p: seq<V>, S: set<V>)
    requires IsPath(g, p) && p[0] !in S && p[|p| - 1] in S
    ensures EnteredFromOutside(g, S)
    decreases |p|
  {
    assert HasEdge(g, p[0], p[1]);
    if p[1] in S {
      var e :| e in g.edges && e.source == p[0] && e.target == p[1];
      assert e.source !in S && e.target in S;
    } else {
      var q := p[1..];
      forall i | 0 <= i < |q| - 1 ensures HasEdge(g, q[i], q[i + 1]) {
        assert q[i] == p[i + 1] && q[i + 1] == p[i + 2];
      }
      PathCrossesCut(g, q, S);
    }
  }

  /** Reachability of every vertex from the root gives the cut form used by the proofs. */
  lemma ReachableGivesCuts<V(!new)>(g: Graph<V>, root: V)
    requires AllReachable(g, root)
    ensures EveryCutEntered(g, root)
  {
    forall S: set<V> | S != {} && root !in S && (forall v :: v in S ==> v in g.vertices)
      ensures EnteredFromOutside(g, S)
    {
      var v :| v in S;
      assert Reaches(g, root, v);
      var p :| IsPath(g, p) && p[0] == root && p[|p| - 1] == v;
      PathCrossesCut(g, p, S);
    }
  }

  /** Under the cut form, every vertex other than the root has an incoming edge. */
  lemma CutGivesIncomingEdge<V(!new)>(g: Graph<V>, root: V, v: V)
    requires EveryCutEntered(g, root) && v in g.vertices && v != root
    ensures EdgesInto(g.edges, v) != []
  {
    assert EnteredFromOutside(g, {v});
    var e :| e in g.edges && e.source !in {v} && e.target in {v};
    assert e in EdgesInto(g.edges, v);
  }

  /** No edge of a simple graph enters the set of all its vertices. */
  lemma AllVerticesNotEntered<V>(g: Graph<V>)
    requires Simple(g)
    ensures !EnteredFromOutside(g, set v | v in g.vertices)
  {
  }

  /** A simple graph with a vertex whose cuts are all entered holds that vertex. */
  lemma CutsHoldRoot<V(!new)>(g: Graph<V>, root: V)
    requires Simple(g) && EveryCutEntered(g, root) && g.vertices != []
    ensures root in g.vertices
  {
    var S := set v | v in g.vertices;
    assert g.vertices[0] in S;
    AllVerticesNotEntered(g);
  }

  /** Every cut of a graph without vertices is entered: it has no non-empty cut. */
  lemma EmptyGraphCuts<V(!new)>(g: Graph<V>, root: V)
    requires g.vertices == []
    ensures EveryCutEntered(g, root)
  {
  }

  /** Some element of a non-empty set. */
  lemma Element<T>(S: set<T>) returns (x: T)
    requires S != {}
    ensures x in S
  {
    x :| x in S;
  }
}
