/** The vertex and edge keepers of the list-based contraction helper (`GraphKeeper`) and
    the list operations on edge keepers its methods are specified by. */
module KeeperLists {
  import opened Outcomes
  import opened Digraph
  import opened Minimum

  /** A `VertexKeeper`: a vertex of a keeper graph standing for the original vertices in
      `members` (one for an input vertex, several for a contracted cycle). The source
      compares keepers with `==`, by identity, so a keeper is an object. */
  class VertexKeeper<V> {
    const members: seq<V>

    constructor (members: seq<V>)
      ensures this.members == members
    {
      this.members := members;
    }
  }

  /** An `EdgeKeeper`: an edge between two vertex keepers with its (possibly re-weighted)
      weight and the original edge it stands for. */
  datatype EdgeKeeper<V> = EdgeKeeper(from: VertexKeeper<V>, to: VertexKeeper<V>, weight: int, edge: Edge<V>)

  /** The bare `RuntimeException` `getSingleInputEdge` and `shrinkCycle` throw when a vertex
      does not have exactly one incoming edge. */
  datatype KeeperError = NotSingleInputEdge

  /** The weight of an edge keeper, the key of the cheapest-edge scan. */
  function KeeperWeight<V>(e: EdgeKeeper<V>): int {
    e.weight
  }

  /** `getEdgesTo(v)`: the edges into `v`, in list order. */
  function EdgesTo<V>(es: seq<EdgeKeeper<V>>, v: VertexKeeper<V>): (r: seq<EdgeKeeper<V>>)
    ensures forall e :: e in r ==> e in es && e.to == v
    ensures forall e :: e in es && e.to == v ==> e in r
    ensures |r| <= |es|
  {
    if es == [] then []
    else EdgesTo(es[..|es| - 1], v) + (if es[|es| - 1].to == v then [es[|es| - 1]] else [])
  }

  /** `getEdgesFrom(v)`: the edges out of `v`, in list order. */
  function EdgesFrom<V>(es: seq<EdgeKeeper<V>>, v: VertexKeeper<V>): (r: seq<EdgeKeeper<V>>)
    ensures forall e :: e in r ==> e in es && e.from == v
    ensures forall e :: e in es && e.from == v ==> e in r
  {
    if es == [] then []
    else EdgesFrom(es[..|es| - 1], v) + (if es[|es| - 1].from == v then [es[|es| - 1]] else [])
  }

  /** The edges not into `v`, in list order. */
  function Without<V>(es: seq<EdgeKeeper<V>>, v: VertexKeeper<V>): (r: seq<EdgeKeeper<V>>)
    ensures forall e :: e in r ==> e in es && e.to != v
    ensures forall e :: e in es && e.to != v ==> e in r
  {
    if es == [] then []
    else Without(es[..|es| - 1], v) + (if es[|es| - 1].to != v then [es[|es| - 1]] else [])
  }

  /** `List.remove(Object)`: the list without the first occurrence of `x`. */
  function RemoveFirst<T(==)>(s: seq<T>, x: T): seq<T> {
    if s == [] then []
    else if s[0] == x then s[1..]
    else [s[0]] + RemoveFirst(s[1..], x)
  }

  lemma {:induction false} EdgesToAppend<V>(a: seq<EdgeKeeper<V>>, b: seq<EdgeKeeper<V>>, v: VertexKeeper<V>)
    ensures EdgesTo(a + b, v) == EdgesTo(a, v) + EdgesTo(b, v)
    decreases |b|
  {
    if b != [] {
      var b' := b[..|b| - 1];
      assert (a + b)[..|a + b| - 1] == a + b';
      EdgesToAppend(a, b', v);
    } else {
      assert a + b == a;
    }
  }

  lemma {:induction false} WithoutAppend<V>(a: seq<EdgeKeeper<V>>, b: seq<EdgeKeeper<V>>, v: VertexKeeper<V>)
    ensures Without(a + b, v) == Without(a, v) + Without(b, v)
    decreases |b|
  {
    if b != [] {
      var b' := b[..|b| - 1];
      assert (a + b)[..|a + b| - 1] == a + b';
      WithoutAppend(a, b', v);
    } else {
      assert a + b == a;
    }
  }

  /** A list with no edge into `v` is its own filter. */
  lemma {:induction false} WithoutNone<V>(es: seq<EdgeKeeper<V>>, v: VertexKeeper<V>)
    requires forall e :: e in es ==> e.to != v
    ensures Without(es, v) == es
    decreases |es|
  {
    if es != [] {
      WithoutNone(es[..|es| - 1], v);
      Rejoin(es, |es| - 1);
    }
  }

  /** A list with no edge into `v` has no edges into `v`. */
  lemma {:induction false} NoneInto<V>(es: seq<EdgeKeeper<V>>, v: VertexKeeper<V>)
    requires forall e :: e in es ==> e.to != v
    ensures EdgesTo(es, v) == []
    decreases |es|
  {
    if es != [] {
      NoneInto(es[..|es| - 1], v);
    }
  }

  lemma {:induction false} RemoveFirstAppend<T>(a: seq<T>, b: seq<T>, x: T)
    requires x !in a
    ensures RemoveFirst(a + b, x) == a + RemoveFirst(b, x)
    decreases |a|
  {
    if a != [] {
      assert (a + b)[0] == a[0] && (a + b)[1..] == a[1..] + b;
      RemoveFirstAppend(a[1..], b, x);
      assert [a[0]] + (a[1..] + RemoveFirst(b, x)) == a + RemoveFirst(b, x);
    } else {
      assert a + b == b;
    }
  }

  /** The position of the first edge into `v`. */
  lemma {:induction false} FirstInto<V>(es: seq<EdgeKeeper<V>>, v: VertexKeeper<V>) returns (m: nat)
    requires EdgesTo(es, v) != []
    ensures m < |es| && es[m].to == v && forall j :: 0 <= j < m ==> es[j].to != v
    decreases |es|
  {
    var x := EdgesTo(es, v)[0];
    assert x in es && x.to == v;
    if es[0].to == v {
      m := 0;
    } else {
      EdgesToAppend([es[0]], es[1..], v);
      assert [es[0]] + es[1..] == es;
      assert EdgesTo([es[0]], v) == [] by {
        assert [es[0]][..0] == [];
      }
      var m' := FirstInto(es[1..], v);
      m := m' + 1;
    }
  }

  /** Removing the first occurrence of `x` when it follows `a + p`. */
  lemma RemoveAt<V>(a: seq<EdgeKeeper<V>>, p: seq<EdgeKeeper<V>>, x: EdgeKeeper<V>, q: seq<EdgeKeeper<V>>)
    requires x !in a && x !in p
    ensures RemoveFirst(a + (p + [x] + q), x) == a + p + q
  {
    assert a + (p + [x] + q) == a + (p + ([x] + q));
    RemoveFirstAppend(a, p + ([x] + q), x);
    RemoveFirstAppend(p, [x] + q, x);
    assert a + (p + q) == a + p + q;
  }

  /** The edges into `v` of a list whose first such edge is `x`, after `p`. */
  lemma EdgesToAt<V>(p: seq<EdgeKeeper<V>>, x: EdgeKeeper<V>, q: seq<EdgeKeeper<V>>, v: VertexKeeper<V>)
    requires x.to == v && forall e :: e in p ==> e.to != v
    ensures EdgesTo(p + [x] + q, v) == [x] + EdgesTo(q, v)
  {
    EdgesToAppend(p + [x], q, v);
    EdgesToAppend(p, [x], v);
    NoneInto(p, v);
    assert EdgesTo([x], v) == [x] by {
      assert [x][..0] == [];
    }
  }

  /** Filtering a prefix that ends with the first edge `x` into `v` after the edges `p`. */
  lemma WithoutAt<V>(w: seq<EdgeKeeper<V>>, p: seq<EdgeKeeper<V>>, x: EdgeKeeper<V>, v: VertexKeeper<V>)
    requires x.to == v && forall e :: e in p ==> e.to != v
    ensures Without(w + p + [x], v) == Without(w, v) + p
  {
    WithoutAppend(w + p, [x], v);
    WithoutAppend(w, p, v);
    WithoutNone(p, v);
    assert Without([x], v) == [] by {
      assert [x][..0] == [];
    }
  }

  /** One pass of the removal loop of `removeDestinationEdges`: with the edges before
      position `k` already filtered, removing the next edge into `v` (its first occurrence)
      filters up to the edge after it. */
  lemma RemoveNextInto<V>(orig: seq<EdgeKeeper<V>>, k: nat, v: VertexKeeper<V>) returns (k': nat)
    requires k <= |orig| && EdgesTo(orig[k..], v) != []
    ensures k < k' <= |orig|
    ensures RemoveFirst(Without(orig[..k], v) + orig[k..], EdgesTo(orig[k..], v)[0]) == Without(orig[..k'], v) + orig[k'..]
    ensures EdgesTo(orig[k..], v)[1..] == EdgesTo(orig[k'..], v)
  {
    var m := FirstInto(orig[k..], v);
    k' := k + m + 1;
    CutAt(orig, k, m + 1, k');
    RemoveFirstInto(orig[..k], orig[k..], m, v);
    assert Without(orig[..k'], v) == Without(orig[..k] + orig[k..][..m + 1], v);
  }

  /** The list cut at `k` and at `j`, `n` further. */
  lemma CutAt<T>(s: seq<T>, k: nat, n: nat, j: nat)
    requires j == k + n <= |s|
    ensures s[..j] == s[..k] + s[k..][..n]
    ensures s[j..] == s[k..][n..]
  {
  }

  /** `RemoveNextInto` for a prefix `a` already filtered and a rest `es` whose first edge
      into `v` is at position `m`. */
  lemma RemoveFirstInto<V>(a: seq<EdgeKeeper<V>>, es: seq<EdgeKeeper<V>>, m: nat, v: VertexKeeper<V>)
    requires m < |es| && es[m].to == v && forall j :: 0 <= j < m ==> es[j].to != v
    ensures EdgesTo(es, v)[0] == es[m] && EdgesTo(es, v)[1..] == EdgesTo(es[m + 1..], v)
    ensures RemoveFirst(Without(a, v) + es, es[m]) == Without(a + es[..m + 1], v) + es[m + 1..]
  {
    var p, x, q := es[..m], es[m], es[m + 1..];
    assert es == p + [x] + q;
    assert a + es[..m + 1] == a + p + [x];
    assert forall e :: e in p ==> e.to != v;
    RemoveNextAt(a, p, x, q, v);
  }

  /** `RemoveNextInto` for the list split as `a + p + [x] + q`, where `x` is the first edge
      into `v` after `a`. */
  lemma RemoveNextAt<V>(a: seq<EdgeKeeper<V>>, p: seq<EdgeKeeper<V>>, x: EdgeKeeper<V>, q: seq<EdgeKeeper<V>>,
                        v: VertexKeeper<V>)
    requires x.to == v && forall e :: e in p ==> e.to != v
    ensures EdgesTo(p + [x] + q, v)[0] == x && EdgesTo(p + [x] + q, v)[1..] == EdgesTo(q, v)
    ensures RemoveFirst(Without(a, v) + (p + [x] + q), x) == Without(a + p + [x], v) + q
  {
    EdgesToAt(p, x, q, v);
    var w := Without(a, v);
    RemoveAt(w, p, x, q);
    WithoutAt(a, p, x, v);
  }

  /** Once no edge into `v` is left after position `k`, the list is fully filtered. */
  lemma WithoutRest<V>(orig: seq<EdgeKeeper<V>>, k: nat, v: VertexKeeper<V>)
    requires k <= |orig| && EdgesTo(orig[k..], v) == []
    ensures Without(orig[..k], v) + orig[k..] == Without(orig, v)
  {
    assert forall e :: e in orig[k..] ==> e.to != v;
    WithoutNone(orig[k..], v);
    WithoutAppend(orig[..k], orig[k..], v);
    Rejoin(orig, k);
  }

  /** The list is its part before `k` followed by the rest. */
  lemma Rejoin<T>(s: seq<T>, k: nat)
    requires k <= |s|
    ensures s[..k] + s[k..] == s
  {
  }

  /** The edge `takeSmallestWeightEdgesForEachVertex` keeps for `v`: the first edge of
      least weight among the edges into `v`, if there is one. */
  function CheapestOf<V>(es: seq<EdgeKeeper<V>>, v: VertexKeeper<V>): seq<EdgeKeeper<V>> {
    match FirstMin(EdgesTo(es, v), KeeperWeight)
    case None => []
    case Some(e) => [e]
  }

  /** The edge list `takeSmallestWeightEdgesForEachVertex` builds: the kept edge of each
      vertex of `vs`, in vertex order. */
  function CheapestEdges<V>(vs: seq<VertexKeeper<V>>, es: seq<EdgeKeeper<V>>): seq<EdgeKeeper<V>> {
    if vs == [] then []
    else CheapestEdges(vs[..|vs| - 1], es) + CheapestOf(es, vs[|vs| - 1])
  }

  /** Every kept edge is the scan's choice for its own target, a vertex of `vs`. */
  lemma {:induction false} CheapestEdgesChosen<V>(vs: seq<VertexKeeper<V>>, es: seq<EdgeKeeper<V>>)
    ensures forall e :: e in CheapestEdges(vs, es) ==> e.to in vs && FirstMin(EdgesTo(es, e.to), KeeperWeight) == Some(e)
    decreases |vs|
  {
    if vs != [] {
      var n := |vs| - 1;
      CheapestEdgesChosen(vs[..n], es);
      CheapestOfChosen(es, vs[n]);
      forall e | e in CheapestEdges(vs, es)
        ensures e.to in vs && FirstMin(EdgesTo(es, e.to), KeeperWeight) == Some(e)
      {
        if e in CheapestEdges(vs[..n], es) {
          assert e.to in vs[..n];
        }
      }
    }
  }

  /** The edge kept for `v` is the scan's choice among the edges into `v`. */
  lemma CheapestOfChosen<V>(es: seq<EdgeKeeper<V>>, v: VertexKeeper<V>)
    ensures forall e :: e in CheapestOf(es, v) ==> e.to == v && FirstMin(EdgesTo(es, v), KeeperWeight) == Some(e)
  {
  }

  /** A kept edge is an edge of `es`, no edge into its target weighs less, and every
      edge into its target listed before it weighs strictly more. */
  lemma CheapestEdgesLeast<V>(vs: seq<VertexKeeper<V>>, es: seq<EdgeKeeper<V>>, e: EdgeKeeper<V>)
    requires e in CheapestEdges(vs, es)
    ensures e in es && e.to in vs
    ensures exists k :: IsFirstMinimum(EdgesTo(es, e.to), k, KeeperWeight) && EdgesTo(es, e.to)[k] == e
  {
    CheapestEdgesChosen(vs, es);
    FirstMinIsFirstMinimum(EdgesTo(es, e.to), KeeperWeight);
  }

  /** Every vertex of `vs` with an incoming edge keeps one. */
  lemma {:induction false} CheapestEdgesComplete<V>(vs: seq<VertexKeeper<V>>, es: seq<EdgeKeeper<V>>, v: VertexKeeper<V>)
    requires v in vs && EdgesTo(es, v) != []
    ensures FirstMin(EdgesTo(es, v), KeeperWeight).value in CheapestEdges(vs, es)
    decreases |vs|
  {
    var n := |vs| - 1;
    if vs[n] != v {
      assert v in vs[..n];
      CheapestEdgesComplete(vs[..n], es, v);
    }
  }

  /** Over a vertex list without repeats, no two kept edges share a target. */
  lemma {:induction false} CheapestEdgesOnePerVertex<V>(vs: seq<VertexKeeper<V>>, es: seq<EdgeKeeper<V>>)
    requires Distinct(vs)
    ensures forall i, j :: 0 <= i < j < |CheapestEdges(vs, es)| ==> CheapestEdges(vs, es)[i].to != CheapestEdges(vs, es)[j].to
    decreases |vs|
  {
    if vs != [] {
      var n := |vs| - 1;
      var init := CheapestEdges(vs[..n], es);
      CheapestEdgesOnePerVertex(vs[..n], es);
      CheapestEdgesChosen(vs[..n], es);
      var r := CheapestEdges(vs, es);
      forall i, j | 0 <= i < j < |r|
        ensures r[i].to != r[j].to
      {
        if j >= |init| {
          assert r[i] in init;
          assert r[j].to == vs[n];
        }
      }
    }
  }
}
