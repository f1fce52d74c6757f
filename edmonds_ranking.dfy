/** Why the integer arborescence finder returns no cycle: acyclic P-edges admit a
    topological numbering, and so does every expansion (`markEdges`) of a numbered
    arborescence of the reduced graph. */
module EdmondsRanking {
  import opened Outcomes
  import opened Digraph
  import opened EdmondsSelection
  import opened EdmondsContraction
  import opened EdmondsExpansion

  /** Numbered edges hold no cycle, whatever the vertex list. */
  lemma RankedAcyclic(vs: seq<int>, A: set<Edge<int>>)
    requires Ranked(A)
    ensures Acyclic(vs, A)
  {
    var rank: int -> nat :| RanksEdges(A, rank);
    forall c ensures !IsCycleOf(vs, A, c) {
      if IsCycleOf(vs, A, c) {
        var i := 0;
        while i < |c| - 1
          invariant 0 <= i <= |c| - 1 && rank(c[i]) >= rank(c[0]) + i
        {
          assert Joined(A, c[i], c[i + 1]);
          i := i + 1;
        }
        assert false;
      }
    }
  }

  /** The source of the edge of `p` into `v`, when there is one. */
  ghost function Pred(p: set<Edge<int>>, v: int): Option<int> {
    if exists e :: e in p && e.target == v then
      var e :| e in p && e.target == v; Some(e.source)
    else None
  }

  lemma PredJoined(p: set<Edge<int>>, v: int)
    requires Pred(p, v).Some?
    ensures Joined(p, Pred(p, v).value, v)
  {
  }

  lemma PredOf(p: set<Edge<int>>, e: Edge<int>)
    requires OnePerTarget(p) && e in p
    ensures Pred(p, e.target) == Some(e.source)
  {
  }

  /** The walk back from `v` along the edges of `p`, at most `f` steps long: `v`, the
      source of the edge into `v`, the source of the edge into that one, and so on. */
  ghost function Backward(p: set<Edge<int>>, v: int, f: nat): (r: seq<int>)
    ensures |r| >= 1 && r[0] == v && |r| <= f + 1
    decreases f
  {
    if f == 0 || Pred(p, v).None? then [v] else [v] + Backward(p, Pred(p, v).value, f - 1)
  }

  /** Each vertex of the walk back is entered from the next one, by a vertex of `vs` when the
      edges of `p` leave vertices of `vs`. */
  lemma {:induction false} BackwardJoined(p: set<Edge<int>>, vs: seq<int>, v: int, f: nat)
    requires forall e :: e in p ==> e.source in vs
    ensures forall k :: 1 <= k < |Backward(p, v, f)| ==>
      Joined(p, Backward(p, v, f)[k], Backward(p, v, f)[k - 1]) && Backward(p, v, f)[k] in vs
    decreases f
  {
    if f > 0 && Pred(p, v).Some? {
      var u := Pred(p, v).value;
      PredJoined(p, v);
      BackwardJoined(p, vs, u, f - 1);
      var B := Backward(p, v, f);
      var B' := Backward(p, u, f - 1);
      assert B == [v] + B';
      forall k | 1 <= k < |B| ensures Joined(p, B[k], B[k - 1]) && B[k] in vs {
        if k == 1 {
          assert B[1] == u;
        } else {
          assert B[k - 1] == B'[k - 2] && B[k] == B'[k - 1];
        }
      }
    }
  }

  /** A walk back that ends before its steps run out ends at a vertex nothing enters, so
      allowing one more step changes nothing. */
  lemma {:induction false} BackwardStable(p: set<Edge<int>>, v: int, f: nat)
    requires |Backward(p, v, f)| < f + 1
    ensures Backward(p, v, f + 1) == Backward(p, v, f)
    decreases f
  {
    if f > 0 && Pred(p, v).Some? {
      BackwardStable(p, Pred(p, v).value, f - 1);
    }
  }

  /** Distinct elements of `vs` are at most `|vs|` many. */
  lemma {:induction false} DistinctWithin(s: seq<int>, vs: seq<int>)
    requires Distinct(s) && forall i :: 0 <= i < |s| ==> s[i] in vs
    ensures |s| <= |vs|
    decreases |s|
  {
    if s != [] {
      var x := s[|s| - 1];
      var init := s[..|s| - 1];
      var rest := Outside(vs, [x]);
      OutsideDropsOne(vs, [x], x);
      forall i | 0 <= i < |init| ensures init[i] in rest {
        assert init[i] == s[i] != x;
      }
      DistinctWithin(init, rest);
    }
  }

  /** The first position of `w` whose element already occurs before it. */
  lemma {:induction false} FirstRepeat(w: seq<int>) returns (i: int, j: int)
    requires !Distinct(w)
    ensures 0 <= i < j < |w| && w[i] == w[j] && Distinct(w[..j])
  {
    var init := w[..|w| - 1];
    if !Distinct(init) {
      i, j := FirstRepeat(init);
      assert init[..j] == w[..j];
    } else {
      var a, b :| 0 <= a < b < |w| && w[a] == w[b];
      i, j := a, b;
      assert w[..j] == init;
    }
  }

  /** A vertex repeated on a walk back closes a cycle: the vertices from the repetition
      back down to just after its first occurrence, read in edge order. */
  lemma RepeatGivesCycle(p: set<Edge<int>>, vs: seq<int>, B: seq<int>, i: int, j: int)
    requires forall e :: e in p ==> e.source != e.target
    requires forall k :: 1 <= k < |B| ==> Joined(p, B[k], B[k - 1]) && B[k] in vs
    requires 0 <= i < j < |B| && B[i] == B[j] && Distinct(B[..j])
    ensures IsCycleOf(vs, p, seq(j - i, k requires 0 <= k < j - i => B[j - k]))
  {
    var c := seq(j - i, k requires 0 <= k < j - i => B[j - k]);
    assert Joined(p, B[i + 1], B[i]);
    assert Distinct(c) by {
      forall k1, k2 | 0 <= k1 < k2 < |c| ensures c[k1] != c[k2] {
        if k1 == 0 {
          assert c[k2] == B[..j][j - k2] && B[i] == B[..j][i];
        } else {
          assert c[k1] == B[..j][j - k1] && c[k2] == B[..j][j - k2];
        }
      }
    }
    forall k | 0 <= k < |c| - 1 ensures Joined(p, c[k], c[k + 1]) {
      assert c[k] == B[j - k] && c[k + 1] == B[j - k - 1];
    }
    assert Joined(p, c[|c| - 1], c[0]);
  }

  /** Over acyclic edges without self-loops between vertices of `vs`, a walk back from a
      vertex of `vs` never repeats a vertex, so it has at most `|vs|` vertices. */
  lemma BackwardBounded(p: set<Edge<int>>, vs: seq<int>, v: int, f: nat)
    requires Acyclic(vs, p) && v in vs
    requires forall e :: e in p ==> e.source in vs && e.source != e.target
    ensures |Backward(p, v, f)| <= |vs|
  {
    var B := Backward(p, v, f);
    BackwardJoined(p, vs, v, f);
    if !Distinct(B) {
      var i, j := FirstRepeat(B);
      RepeatGivesCycle(p, vs, B, i, j);
      assert false;
    }
    DistinctWithin(B, vs);
  }

  /** Along an edge of acyclic P-edges the walk back grows by one vertex. */
  lemma PEdgeRank(p: set<Edge<int>>, vs: seq<int>, e: Edge<int>)
    requires Acyclic(vs, p) && OnePerTarget(p)
    requires forall x :: x in p ==> x.source in vs && x.target in vs && x.source != x.target
    requires e in p
    ensures |Backward(p, e.source, |vs|)| < |Backward(p, e.target, |vs|)|
  {
    var n := |vs|;
    PredOf(p, e);
    BackwardBounded(p, vs, e.target, n);
    BackwardStable(p, e.target, n);
    assert Backward(p, e.target, n + 1) == [e.target] + Backward(p, e.source, n);
  }

  /** Acyclic edges with at most one into each vertex are numbered by the length of the walk
      back from each vertex. */
  lemma AcyclicRanked(vs: seq<int>, p: set<Edge<int>>)
    requires Acyclic(vs, p) && OnePerTarget(p)
    requires forall x :: x in p ==> x.source in vs && x.target in vs && x.source != x.target
    ensures Ranked(p)
  {
    var rank: int -> nat := v => |Backward(p, v, |vs|)|;
    forall e | e in p ensures rank(e.source) < rank(e.target) {
      PEdgeRank(p, vs, e);
    }
    assert RanksEdges(p, rank);
  }

  /** The position of `v` in `cycle`. */
  ghost function IndexIn(cycle: seq<int>, v: int): (r: int)
    requires v in cycle
    ensures 0 <= r < |cycle| && cycle[r] == v
  {
    var i :| 0 <= i < |cycle| && cycle[i] == v; i
  }

  /** How far `cycle[i]` lies behind `cycle[s]` going round a cycle of `n` vertices. */
  function Around(i: int, s: int, n: int): int {
    if i >= s then i - s else i - s + n
  }

  /** The numbering of the expansion: an outside vertex keeps its reduced number, raised by
      the cycle length when it lies above the cycle vertex `c`, and the cycle vertices take
      the numbers just above `c`'s in the order the broken cycle visits them from
      `cycle[s]`. */
  ghost function ExpandedRank(rank: int -> nat, cycle: seq<int>, c: int, s: int): int -> nat
    requires 0 <= s < |cycle|
  {
    v => if v in cycle then rank(c) + 1 + Around(IndexIn(cycle, v), s, |cycle|)
         else if rank(v) <= rank(c) then rank(v)
         else rank(v) + |cycle|
  }

  /** Every image of a numbered reduced edge climbs in the expanded numbering. */
  lemma ImageRanked(g: Graph<int>, cycle: seq<int>, c: int, reduced: Graph<int>,
                    inc: map<int, Edge<int>>, out: map<int, Edge<int>>, rank: int -> nat, s: int, z: Edge<int>)
    requires ExpansionContext(g, cycle, c, reduced, inc, out)
    requires z in reduced.edges && rank(z.source) < rank(z.target) && 0 <= s < |cycle|
    ensures ExpandedRank(rank, cycle, c, s)(Image(z, c, inc, out).source) < ExpandedRank(rank, cycle, c, s)(Image(z, c, inc, out).target)
  {
    var n := |cycle|;
    var R := ExpandedRank(rank, cycle, c, s);
    var y := Image(z, c, inc, out);
    if z.source == c {
      var i := IndexIn(cycle, y.source);
      assert R(y.source) == rank(c) + 1 + Around(i, s, n) <= rank(c) + n;
      assert R(y.target) == rank(z.target) + n;
    } else if z.target == c {
      var i := IndexIn(cycle, y.target);
      assert R(y.source) == rank(z.source);
      assert R(y.target) == rank(c) + 1 + Around(i, s, n);
    }
  }

  /** The expanded number of the cycle vertex `cycle[i]`. */
  lemma CycleRankAt(rank: int -> nat, cycle: seq<int>, c: int, s: int, i: int)
    requires Distinct(cycle) && 0 <= s < |cycle| && 0 <= i < |cycle|
    ensures ExpandedRank(rank, cycle, c, s)(cycle[i]) == rank(c) + 1 + Around(i, s, |cycle|)
  {
    assert IndexIn(cycle, cycle[i]) == i;
  }

  /** Every cycle edge the expansion adds climbs in the expanded numbering. */
  lemma CycleEdgeRanked(g: Graph<int>, cycle: seq<int>, c: int, rank: int -> nat, s: int, y: Edge<int>)
    requires CycleInGraph(g, cycle) && Distinct(cycle) && 0 <= s < |cycle|
    requires y in CycleEdges(g, cycle, cycle[s])
    ensures ExpandedRank(rank, cycle, c, s)(y.source) < ExpandedRank(rank, cycle, c, s)(y.target)
  {
    var n := |cycle|;
    if y in PathEdges(g, cycle, cycle[s], n) {
      var i :| 1 <= i < n && cycle[i] != cycle[s] && y == StepEdge(g, cycle, i).value;
      CycleRankAt(rank, cycle, c, s, i - 1);
      CycleRankAt(rank, cycle, c, s, i);
    } else {
      assert cycle[0] != cycle[s] && y == GetEdge(g.edges, cycle[n - 1], cycle[0]).value;
      CycleRankAt(rank, cycle, c, s, n - 1);
      CycleRankAt(rank, cycle, c, s, 0);
    }
  }

  /** `markEdges` keeps a numbering: the expansion of numbered reduced edges is numbered. */
  lemma ExpansionRanked(g: Graph<int>, cycle: seq<int>, c: int, reduced: Graph<int>,
                        inc: map<int, Edge<int>>, out: map<int, Edge<int>>,
                        redArb: set<Edge<int>>, a: Edge<int>)
    requires ExpansionContext(g, cycle, c, reduced, inc, out)
    requires (forall e :: e in redArb ==> e in reduced.edges) && Ranked(redArb)
    requires a in IntoCycle(redArb, c)
    ensures Ranked(Expanded(g, redArb, cycle, c, inc, out, a))
  {
    var rank :| RanksEdges(redArb, rank);
    var s := IndexIn(cycle, inc[a.source].target);
    var A := Expanded(g, redArb, cycle, c, inc, out, a);
    var R := ExpandedRank(rank, cycle, c, s);
    forall y | y in A ensures R(y.source) < R(y.target) {
      if y in Images(redArb, c, inc, out) {
        var z :| z in redArb && y == Image(z, c, inc, out);
        ImageRanked(g, cycle, c, reduced, inc, out, rank, s, z);
      } else {
        CycleEdgeRanked(g, cycle, c, rank, s, y);
      }
    }
    assert RanksEdges(A, R);
  }
}
