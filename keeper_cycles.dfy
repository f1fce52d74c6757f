/** The notions the depth-first cycle search of `GraphKeeper` is specified by: edges
    between keepers, paths and cycles along them, and the closed sets a failed search
    leaves behind. */
module KeeperCycles {
  import opened KeeperLists

  /** Some edge of `es` goes from `a` to `b`. */
  ghost predicate Joins<V>(es: seq<EdgeKeeper<V>>, a: VertexKeeper<V>, b: VertexKeeper<V>) {
    exists i :: 0 <= i < |es| && es[i].from == a && es[i].to == b
  }

  /** A walk of at least one vertex along edges of `es`. */
  ghost predicate KeeperPath<V>(es: seq<EdgeKeeper<V>>, p: seq<VertexKeeper<V>>) {
    |p| >= 1 && forall i :: 0 < i < |p| ==> Joins(es, p[i - 1], p[i])
  }

  /** A walk whose last vertex has an edge back to its first. */
  ghost predicate KeeperCycle<V>(es: seq<EdgeKeeper<V>>, c: seq<VertexKeeper<V>>) {
    KeeperPath(es, c) && Joins(es, c[|c| - 1], c[0])
  }

  /** An edge into the first vertex of a walk extends the walk backwards. */
  lemma PrependPath<V>(es: seq<EdgeKeeper<V>>, x: VertexKeeper<V>, p: seq<VertexKeeper<V>>)
    requires KeeperPath(es, p) && Joins(es, x, p[0])
    ensures KeeperPath(es, [x] + p)
  {
    var q := [x] + p;
    forall i | 0 < i < |q|
      ensures Joins(es, q[i - 1], q[i])
    {
      if i > 1 {
        assert q[i - 1] == p[i - 2] && q[i] == p[i - 1];
      }
    }
  }

  /** Every edge out of `x` ends in `S`. */
  ghost predicate Closed<V>(es: seq<EdgeKeeper<V>>, x: VertexKeeper<V>, S: set<VertexKeeper<V>>) {
    forall i :: 0 <= i < |es| && es[i].from == x ==> es[i].to in S
  }

  /** Every vertex of `N` has all its successors in `S` and no edge to `start`: what a
      failed search from `start` knows of the vertices it finished. */
  ghost predicate NoWayBack<V>(es: seq<EdgeKeeper<V>>, start: VertexKeeper<V>, N: set<VertexKeeper<V>>, S: set<VertexKeeper<V>>) {
    forall x :: x in N ==> Closed(es, x, S) && !Joins(es, x, start)
  }

  /** Finished vertices stay finished when the visited set grows. */
  lemma NoWayBackGrows<V>(es: seq<EdgeKeeper<V>>, start: VertexKeeper<V>, N: set<VertexKeeper<V>>, S: set<VertexKeeper<V>>,
                          N2: set<VertexKeeper<V>>, S2: set<VertexKeeper<V>>)
    requires NoWayBack(es, start, N, S) && NoWayBack(es, start, N2, S2) && S <= S2
    ensures NoWayBack(es, start, N + N2, S2)
  {
    forall x | x in N + N2
      ensures Closed(es, x, S2) && !Joins(es, x, start)
    {
      if x in N {
        assert Closed(es, x, S);
      }
    }
  }

  /** A failed search from a successor of `current` leaves the vertices finished before it
      finished and adds its own. */
  lemma ChildFinished<V>(es: seq<EdgeKeeper<V>>, start: VertexKeeper<V>, visited: set<VertexKeeper<V>>,
                         current: VertexKeeper<V>, V1: set<VertexKeeper<V>>, V2: set<VertexKeeper<V>>)
    requires V1 <= V2
    requires NoWayBack(es, start, V1 - visited - {current}, V1) && NoWayBack(es, start, V2 - V1, V2)
    ensures NoWayBack(es, start, V2 - visited - {current}, V2)
  {
    NoWayBackGrows(es, start, V1 - visited - {current}, V1, V2 - V1, V2);
    assert V2 - visited - {current} <= (V1 - visited - {current}) + (V2 - V1);
  }

  /** Once every edge out of `current` has been followed without reaching `start`,
      `current` is finished too. */
  lemma CurrentFinished<V>(es: seq<EdgeKeeper<V>>, start: VertexKeeper<V>, visited: set<VertexKeeper<V>>,
                           current: VertexKeeper<V>, V1: set<VertexKeeper<V>>)
    requires NoWayBack(es, start, V1 - visited - {current}, V1)
    requires Closed(es, current, V1) && !Joins(es, current, start)
    ensures NoWayBack(es, start, V1 - visited, V1)
  {
    NoWayBackGrows(es, start, V1 - visited - {current}, V1, {current}, V1);
    assert V1 - visited <= (V1 - visited - {current}) + {current};
  }

  /** The edges out of `current`, listed in `out`, all end in `S` and none at `start`. */
  lemma OutEdgesFollowed<V>(es: seq<EdgeKeeper<V>>, start: VertexKeeper<V>, current: VertexKeeper<V>,
                            out: seq<EdgeKeeper<V>>, S: set<VertexKeeper<V>>)
    requires out == EdgesFrom(es, current)
    requires forall j :: 0 <= j < |out| ==> out[j].to in S && out[j].to != start
    ensures Closed(es, current, S) && !Joins(es, current, start)
  {
    forall j | 0 <= j < |es| && es[j].from == current
      ensures es[j].to in S && es[j].to != start
    {
      assert es[j] in out;
    }
  }

  /** `c` is the path `cycle` extended by a walk from `current` whose last vertex has an
      edge to `start`: what a successful search from `current` returns. */
  ghost predicate Extends<V>(es: seq<EdgeKeeper<V>>, start: VertexKeeper<V>, cycle: seq<VertexKeeper<V>>,
                             current: VertexKeeper<V>, c: seq<VertexKeeper<V>>) {
    && |c| > |cycle| && c[..|cycle|] == cycle && c[|cycle|] == current
    && KeeperPath(es, c[|cycle|..]) && Joins(es, c[|c| - 1], start)
  }

  /** An edge from `current` to `start` closes the one-vertex walk behind `cycle`. */
  lemma FoundHere<V>(es: seq<EdgeKeeper<V>>, start: VertexKeeper<V>, cycle: seq<VertexKeeper<V>>, current: VertexKeeper<V>, e: EdgeKeeper<V>)
    requires e in es && e.from == current && e.to == start
    ensures Extends(es, start, cycle, current, cycle + [current])
  {
    assert (cycle + [current])[..|cycle|] == cycle;
    assert (cycle + [current])[|cycle|..] == [current];
  }

  /** A walk found from a successor `next` of `current`, behind the path
      `cycle + [current]`, is a walk from `current` behind `cycle`. */
  lemma ChildFound<V>(es: seq<EdgeKeeper<V>>, start: VertexKeeper<V>, cycle: seq<VertexKeeper<V>>, current: VertexKeeper<V>,
                      next: VertexKeeper<V>, c2: seq<VertexKeeper<V>>)
    requires Extends(es, start, cycle + [current], next, c2) && Joins(es, current, next)
    ensures Extends(es, start, cycle, current, c2)
  {
    var p := c2[|cycle| + 1..];
    assert c2[..|cycle|] == c2[..|cycle| + 1][..|cycle|];
    assert c2[|cycle|] == c2[..|cycle| + 1][|cycle|];
    PrependPath(es, current, p);
    assert c2[|cycle|..] == [current] + p;
  }

  /** The vertices a search from `start` can reach: `start` and the targets of edges. */
  function Nodes<V>(es: seq<EdgeKeeper<V>>, start: VertexKeeper<V>): (r: set<VertexKeeper<V>>)
    ensures start in r
    ensures forall i :: 0 <= i < |es| ==> es[i].to in r
  {
    (set i | 0 <= i < |es| :: es[i].to) + {start}
  }

  lemma {:induction false} SubsetCard<T>(a: set<T>, b: set<T>)
    requires a <= b
    ensures |a| <= |b|
    decreases |a|
  {
    if a != {} {
      var x :| x in a;
      SubsetCard(a - {x}, b - {x});
    }
  }

  /** Visiting one more vertex of `A` shrinks what is left of `A` to visit. */
  lemma VisitShrinks<T>(A: set<T>, visited: set<T>, visited': set<T>, x: T)
    requires visited <= visited' && x in A && x !in visited && x in visited'
    ensures |A - visited'| < |A - visited|
  {
    SubsetCard(A - visited', A - visited - {x});
  }

  /** A set closed under the edges of `es` that holds `start`, and none of whose members
      has an edge back to `start`, rules out a cycle through `start`. */
  lemma ClosedRulesOutCycle<V>(es: seq<EdgeKeeper<V>>, start: VertexKeeper<V>, S: set<VertexKeeper<V>>, c: seq<VertexKeeper<V>>)
    requires start in S && NoWayBack(es, start, S, S)
    ensures !(KeeperCycle(es, c) && c[0] == start)
  {
    if KeeperCycle(es, c) && c[0] == start {
      var k := 0;
      while k < |c| - 1
        invariant 0 <= k < |c| && c[k] in S
      {
        assert Joins(es, c[k + 1 - 1], c[k + 1]);
        var i :| 0 <= i < |es| && es[i].from == c[k] && es[i].to == c[k + 1];
        k := k + 1;
      }
    }
  }
}
