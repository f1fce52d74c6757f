/** `ExplicitMetricCompressionVrpProblemToJSpritConverter`: turns the tree branches of a
    compressed instance into aggregated services, recombines the distance matrix over the
    services and the depot, and copies it out as the transport costs of the solver's problem. */
module Compression {
  import opened Outcomes
  import opened Vrp
  import opened Sequences

  /** A vertex of the compressed tree: a location id and its demand. */
  datatype LocationVertex = LocationVertex(id: int, demand: int)

  /** A branch of the tree: its vertex list, which the converter shortens in place, and its
      start and end vertices. */
  class TreeBranch {
    var vertices: seq<LocationVertex>
    const start: LocationVertex
    const end: LocationVertex

    constructor (vertices: seq<LocationVertex>, start: LocationVertex, end: LocationVertex)
      ensures this.vertices == vertices && this.start == start && this.end == end
    {
      this.vertices := vertices;
      this.start := start;
      this.end := end;
    }
  }

  /** The five fields the converter gives an aggregated service. */
  datatype AggregatedService = AggregatedService(
    vertices: seq<LocationVertex>, input: LocationVertex, output: LocationVertex, internalCost: int, id: int)

  datatype ConversionError =
    | MetricNotExplicit    // "Metric type must be explicit for this converter"
    | NullDistanceMatrix   // "Distance matrix cannot be null"
    | EmptyBranch          // `get(0)` on a branch left empty by the removal

  /** One entry `addTransportDistance(from, to, distance)` of the cost matrix builder. */
  datatype Transport = Transport(from: int, to: int, distance: int)

  /** A job of the solver's problem: the service's id and its size (the internal cost). */
  datatype Job = Job(id: int, size: int)

  /** What `convertToJsprit` hands to the solver, with the intermediate results it builds. */
  datatype JspritProblem = JspritProblem(
    services: seq<AggregatedService>, matrix: DistanceMatrix, costs: seq<Transport>, jobs: seq<Job>)

  // ---------------------------------------------------------------------------------------
  // Demands along a branch

  /** The total demand of a vertex list. */
  function Demand(vs: seq<LocationVertex>): int {
    if vs == [] then 0 else Demand(vs[..|vs| - 1]) + vs[|vs| - 1].demand
  }

  /** The demand the aggregation loop adds up: every vertex after the first. */
  function TailDemand(vs: seq<LocationVertex>): int {
    if |vs| <= 1 then 0 else TailDemand(vs[..|vs| - 1]) + vs[|vs| - 1].demand
  }

  /** Total demand is additive over concatenation. */
  lemma {:induction false} DemandAppend(a: seq<LocationVertex>, b: seq<LocationVertex>)
    ensures Demand(a + b) == Demand(a) + Demand(b)
    decreases |b|
  {
    if b != [] {
      var c := a + b;
      assert c[..|c| - 1] == a + b[..|b| - 1];
      assert c[|c| - 1] == b[|b| - 1];
      DemandAppend(a, b[..|b| - 1]);
      assert Demand(c) == Demand(c[..|c| - 1]) + c[|c| - 1].demand;
    } else {
      assert a + b == a;
    }
  }

  /** A service's internal cost is the demand of its branch less the first vertex's. */
  lemma {:induction false} TailDemandIsRest(vs: seq<LocationVertex>)
    requires vs != []
    ensures TailDemand(vs) == Demand(vs[1..]) == Demand(vs) - vs[0].demand
    decreases |vs|
  {
    if |vs| > 1 {
      TailDemandIsRest(vs[..|vs| - 1]);
      assert vs[..|vs| - 1][1..] == vs[1..][..|vs[1..]| - 1];
    } else {
      assert vs[1..] == [];
    }
    DemandAppend([vs[0]], vs[1..]);
    assert [vs[0]] + vs[1..] == vs;
    assert [vs[0]][..0] == [];
  }

  /** The inner loop of `aggregateServices`: the demands of every vertex that has a
      predecessor in the list. */
  method ChainCost(vs: seq<LocationVertex>) returns (cost: int)
    ensures cost == TailDemand(vs)
  {
    cost := 0;
    var prev: Option<LocationVertex> := None;
    for i := 0 to |vs|
      invariant cost == TailDemand(vs[..i]) && (prev.None? <==> i == 0)
    {
      assert vs[..i + 1][..i] == vs[..i];
      if prev.Some? {
        cost := cost + vs[i].demand;
      }
      prev := Some(vs[i]);
    }
    assert vs[..|vs|] == vs;
  }

  // ---------------------------------------------------------------------------------------
  // Removing the start vertex

  /** The position of the first occurrence of `x`. */
  function IndexOf<T(==)>(vs: seq<T>, x: T): (i: nat)
    requires x in vs
    ensures i < |vs| && vs[i] == x && x !in vs[..i]
  {
    if vs[0] == x then 0 else
      var i := IndexOf(vs[1..], x);
      assert vs[..i + 1] == [vs[0]] + vs[1..][..i];
      i + 1
  }

  /** `List.remove(Object)`: drops the first occurrence of `x`, if any. */
  function RemoveFirst<T(==)>(vs: seq<T>, x: T): (r: seq<T>)
    ensures x !in vs ==> r == vs
    ensures x in vs ==> |r| == |vs| - 1 && multiset(r) + multiset{x} == multiset(vs)
  {
    if x in vs then
      var i := IndexOf(vs, x);
      assert vs == vs[..i] + [x] + vs[i + 1..];
      vs[..i] + vs[i + 1..]
    else vs
  }

  /** The service made from a branch with vertex list `vs`, or `None` when the list is
      empty once the start vertex is removed. */
  function Service(vs: seq<LocationVertex>, start: LocationVertex, end: LocationVertex, id: int): Option<AggregatedService> {
    var rest := RemoveFirst(vs, start);
    if rest == [] then None else Some(AggregatedService(rest, rest[0], end, TailDemand(vs), id))
  }

  /** A branch that starts its own list keeps the rest of it: the service's vertices are the
      branch after its first vertex, entered at the second one, and cost the demand of those. */
  lemma ServiceOfChain(vs: seq<LocationVertex>, end: LocationVertex, id: int)
    requires |vs| >= 2
    ensures Service(vs, vs[0], end, id) == Some(AggregatedService(vs[1..], vs[1], end, Demand(vs[1..]), id))
  {
    assert IndexOf(vs, vs[0]) == 0;
    assert vs[..0] + vs[1..] == vs[1..];
    TailDemandIsRest(vs);
  }

  /** `aggregateServices`: one service per branch, in order, with ids 2, 3, 4, ...; each
      branch loses its start vertex. It stops at the first branch that the removal leaves
      empty; the branches before it and that one have been shortened, the others not. */
  method AggregateServices(branches: seq<TreeBranch>) returns (r: Result<seq<AggregatedService>, ConversionError>)
    requires forall a, b :: 0 <= a < b < |branches| ==> branches[a] != branches[b]
    modifies branches
    ensures r.Ok? <==> forall k :: 0 <= k < |branches| ==>
      Service(old(VerticesOf(branches))[k], branches[k].start, branches[k].end, k + 2).Some?
    ensures r.Ok? ==> |r.value| == |branches| && forall k :: 0 <= k < |branches| ==>
      Some(r.value[k]) == Service(old(VerticesOf(branches))[k], branches[k].start, branches[k].end, k + 2)
    ensures r.Ok? ==> forall k :: 0 <= k < |branches| ==>
      VerticesOf(branches)[k] == RemoveFirst(old(VerticesOf(branches))[k], branches[k].start)
    ensures r.Err? ==> (r.error == EmptyBranch &&
      exists f :: 0 <= f < |branches| && Shortened(old(VerticesOf(branches)), VerticesOf(branches), branches, f))
  {
    ghost var before := VerticesOf(branches);
    var services: seq<AggregatedService> := [];
    var k := 0;
    while k < |branches|
      invariant 0 <= k <= |branches|
      invariant before == old(VerticesOf(branches))
      invariant AggregatedUpTo(before, VerticesOf(branches), branches, services, k)
    {
      ghost var now := VerticesOf(branches);
      var service := Aggregate(branches, k);
      if service.None? {
        StopsAt(before, now, VerticesOf(branches), branches, services, k);
        return Err(EmptyBranch);
      }
      AggregatedOneMore(before, now, VerticesOf(branches), branches, services, service.value, k);
      services := services + [service.value];
      k := k + 1;
    }
    return Ok(services);
  }

  /** The vertex lists of `bs`, in order. */
  ghost function VerticesOf(bs: seq<TreeBranch>): (vs: seq<seq<LocationVertex>>)
    reads bs
    ensures |vs| == |bs| && forall q :: 0 <= q < |bs| ==> vs[q] == bs[q].vertices
  {
    seq(|bs|, q requires 0 <= q < |bs| reads bs => bs[q].vertices)
  }

  /** The body of the loop of `aggregateServices` for branch `k`: it loses its start vertex,
      and the rest, if any, becomes the service with id `k + 2`. No other branch changes. */
  method Aggregate(branches: seq<TreeBranch>, k: int) returns (r: Option<AggregatedService>)
    requires forall a, b :: 0 <= a < b < |branches| ==> branches[a] != branches[b]
    requires 0 <= k < |branches|
    modifies branches[k]
    ensures VerticesOf(branches) ==
      old(VerticesOf(branches))[k := RemoveFirst(old(VerticesOf(branches))[k], branches[k].start)]
    ensures r == Service(old(VerticesOf(branches))[k], branches[k].start, branches[k].end, k + 2)
  {
    var branch := branches[k];
    var cost := ChainCost(branch.vertices);
    branch.vertices := RemoveFirst(branch.vertices, branch.start);
    if branch.vertices == [] {
      return None;
    }
    return Some(AggregatedService(branch.vertices, branch.vertices[0], branch.end, cost, k + 2));
  }

  /** The state of `aggregateServices` after `k` branches: `before` and `now` are the vertex
      lists at the start and now; the first `k` branches gave their services and lost their
      start vertices, the others are untouched. */
  ghost predicate AggregatedUpTo(before: seq<seq<LocationVertex>>, now: seq<seq<LocationVertex>>,
                                 bs: seq<TreeBranch>, services: seq<AggregatedService>, k: int)
  {
    && |before| == |now| == |bs| && 0 <= k <= |bs| && |services| == k
    && (forall q :: 0 <= q < k ==> Some(services[q]) == Service(before[q], bs[q].start, bs[q].end, q + 2))
    && (forall q :: 0 <= q < k ==> now[q] == RemoveFirst(before[q], bs[q].start))
    && now[k..] == before[k..]
  }

  /** The state `aggregateServices` leaves when branch `f` is the first left empty. */
  ghost predicate Shortened(before: seq<seq<LocationVertex>>, now: seq<seq<LocationVertex>>, bs: seq<TreeBranch>, f: int) {
    && |before| == |now| == |bs| && 0 <= f < |bs|
    && Service(before[f], bs[f].start, bs[f].end, f + 2).None?
    && (forall k :: 0 <= k < f ==> Service(before[k], bs[k].start, bs[k].end, k + 2).Some?)
    && (forall k :: 0 <= k <= f ==> now[k] == RemoveFirst(before[k], bs[k].start))
    && (forall k :: f < k < |bs| ==> now[k] == before[k])
  }

  /** One more branch aggregated keeps `AggregatedUpTo`. */
  lemma AggregatedOneMore(before: seq<seq<LocationVertex>>, now: seq<seq<LocationVertex>>, next: seq<seq<LocationVertex>>,
                          bs: seq<TreeBranch>, services: seq<AggregatedService>, s: AggregatedService, k: int)
    requires AggregatedUpTo(before, now, bs, services, k) && k < |bs|
    requires next == now[k := RemoveFirst(now[k], bs[k].start)]
    requires Some(s) == Service(now[k], bs[k].start, bs[k].end, k + 2)
    ensures AggregatedUpTo(before, next, bs, services + [s], k + 1)
  {
    assert now[k] == before[k] by { assert now[k..][0] == before[k..][0]; }
    assert next[k + 1..] == now[k + 1..];
  }

  /** A branch left empty ends `aggregateServices` in the `Shortened` state, and not every
      branch gives a service. */
  lemma StopsAt(before: seq<seq<LocationVertex>>, now: seq<seq<LocationVertex>>, next: seq<seq<LocationVertex>>,
                bs: seq<TreeBranch>, services: seq<AggregatedService>, k: int)
    requires AggregatedUpTo(before, now, bs, services, k) && k < |bs|
    requires next == now[k := RemoveFirst(now[k], bs[k].start)]
    requires Service(now[k], bs[k].start, bs[k].end, k + 2).None?
    ensures Shortened(before, next, bs, k)
    ensures !forall q :: 0 <= q < |bs| ==> Service(before[q], bs[q].start, bs[q].end, q + 2).Some?
  {
    assert now[k] == before[k] by { assert now[k..][0] == before[k..][0]; }
    forall q | k < q < |bs|
      ensures next[q] == before[q]
    {
      assert now[k..][q - k] == before[k..][q - k];
    }
  }

  // ---------------------------------------------------------------------------------------
  // The compressed matrix

  /** The compressed distance from service `i` to service `j`: reach `j`'s input vertex from
      `i`'s output vertex, then absorb `j`'s internal cost. */
  function Into(s: seq<AggregatedService>, src: DistanceMatrix, lookup: Lookup, i: int, j: int): int
    requires 0 <= i < |s| && 0 <= j < |s|
  {
    lookup(src, s[i].output.id, s[j].input.id) + s[j].internalCost
  }

  function Between(s: seq<AggregatedService>, src: DistanceMatrix, lookup: Lookup, i: int, j: int): Write
    requires 0 <= i < |s| && 0 <= j < |s|
  {
    Write(s[i].id, s[j].id, Into(s, src, lookup, i, j))
  }

  /** The depot to service `i`: reach its input vertex, then absorb its internal cost. */
  function FromDepot(s: seq<AggregatedService>, depot: int, src: DistanceMatrix, lookup: Lookup, i: int): Write
    requires 0 <= i < |s|
  {
    Write(depot, s[i].id, lookup(src, depot, s[i].input.id) + s[i].internalCost)
  }

  /** Service `i` back to the depot: leave from its output vertex, with no internal cost. */
  function ToDepot(s: seq<AggregatedService>, depot: int, src: DistanceMatrix, lookup: Lookup, i: int): Write
    requires 0 <= i < |s|
  {
    Write(s[i].id, depot, lookup(src, s[i].output.id, depot))
  }

  /** The writes of the inner loop of `compressMatrix` for outer service `i`, up to `n`. */
  function InnerWrites(s: seq<AggregatedService>, src: DistanceMatrix, lookup: Lookup, i: int, n: int): seq<Write>
    requires 0 <= i < |s| && 0 <= n <= |s|
  {
    if n == 0 then [] else
      InnerWrites(s, src, lookup, i, n - 1)
      + (if i != n - 1 then [Between(s, src, lookup, i, n - 1), Between(s, src, lookup, n - 1, i)] else [])
  }

  /** The writes of iteration `i` of the outer loop of `compressMatrix`. */
  function RowWrites(s: seq<AggregatedService>, depot: int, src: DistanceMatrix, lookup: Lookup, i: int): seq<Write>
    requires 0 <= i < |s|
  {
    InnerWrites(s, src, lookup, i, |s|) + [FromDepot(s, depot, src, lookup, i), ToDepot(s, depot, src, lookup, i)]
  }

  /** The writes of iterations 0..n-1 of the outer loop of `compressMatrix`, row by row. */
  function Rows(s: seq<AggregatedService>, depot: int, src: DistanceMatrix, lookup: Lookup, n: int): (r: seq<seq<Write>>)
    requires 0 <= n <= |s|
    ensures |r| == n && forall k :: 0 <= k < n ==> r[k] == RowWrites(s, depot, src, lookup, k)
  {
    if n == 0 then [] else Rows(s, depot, src, lookup, n - 1) + [RowWrites(s, depot, src, lookup, n - 1)]
  }

  /** The writes of the first `n` iterations of the outer loop of `compressMatrix`. */
  function OuterWrites(s: seq<AggregatedService>, depot: int, src: DistanceMatrix, lookup: Lookup, n: int): seq<Write>
    requires 0 <= n <= |s|
  {
    Flatten(Rows(s, depot, src, lookup, n))
  }

  /** The matrix `compressMatrix` returns: dimension one more than the number of services. */
  function CompressedMatrix(s: seq<AggregatedService>, depot: int, src: DistanceMatrix, lookup: Lookup): DistanceMatrix {
    DistanceMatrix(|s| + 1, false, Apply(map[], OuterWrites(s, depot, src, lookup, |s|)))
  }

  /** A write of the compression between two different services. */
  predicate IsBetween(s: seq<AggregatedService>, src: DistanceMatrix, lookup: Lookup, w: Write) {
    exists i, j :: 0 <= i < |s| && 0 <= j < |s| && i != j && w == Between(s, src, lookup, i, j)
  }

  /** A write of the compression between the depot and a service. */
  predicate IsDepotWrite(s: seq<AggregatedService>, depot: int, src: DistanceMatrix, lookup: Lookup, w: Write) {
    exists i :: 0 <= i < |s| && (w == FromDepot(s, depot, src, lookup, i) || w == ToDepot(s, depot, src, lookup, i))
  }

  predicate Intended(s: seq<AggregatedService>, depot: int, src: DistanceMatrix, lookup: Lookup, w: Write) {
    IsBetween(s, src, lookup, w) || IsDepotWrite(s, depot, src, lookup, w)
  }

  lemma {:induction false} InnerWritesSound(s: seq<AggregatedService>, src: DistanceMatrix, lookup: Lookup, i: int, n: int)
    requires 0 <= i < |s| && 0 <= n <= |s|
    ensures forall w :: w in InnerWrites(s, src, lookup, i, n) ==> IsBetween(s, src, lookup, w)
  {
    if n > 0 {
      InnerWritesSound(s, src, lookup, i, n - 1);
      if i != n - 1 {
        assert IsBetween(s, src, lookup, Between(s, src, lookup, i, n - 1));
        assert IsBetween(s, src, lookup, Between(s, src, lookup, n - 1, i));
      }
    }
  }

  lemma {:induction false} InnerWritesComplete(s: seq<AggregatedService>, src: DistanceMatrix, lookup: Lookup, i: int, n: int)
    requires 0 <= i < |s| && 0 <= n <= |s|
    ensures forall j :: 0 <= j < n && j != i ==> Between(s, src, lookup, i, j) in InnerWrites(s, src, lookup, i, n)
  {
    if n > 0 {
      InnerWritesComplete(s, src, lookup, i, n - 1);
    }
  }

  lemma RowWritesSound(s: seq<AggregatedService>, depot: int, src: DistanceMatrix, lookup: Lookup, i: int)
    requires 0 <= i < |s|
    ensures forall w :: w in RowWrites(s, depot, src, lookup, i) ==> Intended(s, depot, src, lookup, w)
  {
    InnerWritesSound(s, src, lookup, i, |s|);
    assert IsDepotWrite(s, depot, src, lookup, FromDepot(s, depot, src, lookup, i));
    assert IsDepotWrite(s, depot, src, lookup, ToDepot(s, depot, src, lookup, i));
  }

  lemma OuterWritesSound(s: seq<AggregatedService>, depot: int, src: DistanceMatrix, lookup: Lookup, n: int)
    requires 0 <= n <= |s|
    ensures forall w :: w in OuterWrites(s, depot, src, lookup, n) ==> Intended(s, depot, src, lookup, w)
  {
    var rows := Rows(s, depot, src, lookup, n);
    forall w | w in Flatten(rows)
      ensures Intended(s, depot, src, lookup, w)
    {
      FlattenFrom(rows, w);
      var k :| 0 <= k < |rows| && w in rows[k];
      RowWritesSound(s, depot, src, lookup, k);
    }
  }

  lemma OuterWritesSnoc(s: seq<AggregatedService>, depot: int, src: DistanceMatrix, lookup: Lookup, i: int)
    requires 0 <= i < |s|
    ensures OuterWrites(s, depot, src, lookup, i + 1) == OuterWrites(s, depot, src, lookup, i) + RowWrites(s, depot, src, lookup, i)
  {
    var rows := Rows(s, depot, src, lookup, i + 1);
    assert rows[..i] == Rows(s, depot, src, lookup, i);
  }

  lemma OuterWritesHas(s: seq<AggregatedService>, depot: int, src: DistanceMatrix, lookup: Lookup, i: int, n: int, w: Write)
    requires 0 <= i < n <= |s| && w in RowWrites(s, depot, src, lookup, i)
    ensures w in OuterWrites(s, depot, src, lookup, n)
  {
    FlattenHas(Rows(s, depot, src, lookup, n), i, w);
  }

  lemma OuterWritesBetween(s: seq<AggregatedService>, depot: int, src: DistanceMatrix, lookup: Lookup, i: int, j: int)
    requires 0 <= i < |s| && 0 <= j < |s| && j != i
    ensures Between(s, src, lookup, i, j) in OuterWrites(s, depot, src, lookup, |s|)
  {
    InnerWritesComplete(s, src, lookup, i, |s|);
    OuterWritesHas(s, depot, src, lookup, i, |s|, Between(s, src, lookup, i, j));
  }

  lemma OuterWritesDepot(s: seq<AggregatedService>, depot: int, src: DistanceMatrix, lookup: Lookup, i: int)
    requires 0 <= i < |s|
    ensures FromDepot(s, depot, src, lookup, i) in OuterWrites(s, depot, src, lookup, |s|)
    ensures ToDepot(s, depot, src, lookup, i) in OuterWrites(s, depot, src, lookup, |s|)
  {
    OuterWritesHas(s, depot, src, lookup, i, |s|, FromDepot(s, depot, src, lookup, i));
    OuterWritesHas(s, depot, src, lookup, i, |s|, ToDepot(s, depot, src, lookup, i));
  }

  /** The services' ids are pairwise distinct and differ from the depot's. */
  predicate DistinctServiceIds(s: seq<AggregatedService>, depot: int) {
    && (forall i, j :: 0 <= i < j < |s| ==> s[i].id != s[j].id)
    && (forall i :: 0 <= i < |s| ==> s[i].id != depot)
  }

  lemma EntryBetween(s: seq<AggregatedService>, depot: int, src: DistanceMatrix, lookup: Lookup, i: int, j: int)
    requires DistinctServiceIds(s, depot) && 0 <= i < |s| && 0 <= j < |s| && i != j
    ensures var e := CompressedMatrix(s, depot, src, lookup).entries;
      (s[i].id, s[j].id) in e && e[(s[i].id, s[j].id)] == Into(s, src, lookup, i, j)
  {
    var ws := OuterWrites(s, depot, src, lookup, |s|);
    var k := (s[i].id, s[j].id);
    OuterWritesSound(s, depot, src, lookup, |s|);
    OuterWritesBetween(s, depot, src, lookup, i, j);
    forall w | w in ws && (w.from, w.to) == k
      ensures w.value == Into(s, src, lookup, i, j)
    {
      assert Intended(s, depot, src, lookup, w);
      if IsBetween(s, src, lookup, w) {
        var a, b :| 0 <= a < |s| && 0 <= b < |s| && a != b && w == Between(s, src, lookup, a, b);
        assert a == i && b == j;
      }
    }
    ApplyValue(map[], ws, k, Into(s, src, lookup, i, j));
  }

  lemma EntryFromDepot(s: seq<AggregatedService>, depot: int, src: DistanceMatrix, lookup: Lookup, i: int)
    requires DistinctServiceIds(s, depot) && 0 <= i < |s|
    ensures var e := CompressedMatrix(s, depot, src, lookup).entries;
      (depot, s[i].id) in e && e[(depot, s[i].id)] == FromDepot(s, depot, src, lookup, i).value
  {
    var ws := OuterWrites(s, depot, src, lookup, |s|);
    var d := FromDepot(s, depot, src, lookup, i);
    OuterWritesSound(s, depot, src, lookup, |s|);
    OuterWritesDepot(s, depot, src, lookup, i);
    forall w | w in ws && (w.from, w.to) == (d.from, d.to)
      ensures w.value == d.value
    {
      assert Intended(s, depot, src, lookup, w);
      if IsDepotWrite(s, depot, src, lookup, w) {
        var a :| 0 <= a < |s| && (w == FromDepot(s, depot, src, lookup, a) || w == ToDepot(s, depot, src, lookup, a));
        assert a == i;
      }
    }
    ApplyValue(map[], ws, (d.from, d.to), d.value);
  }

  lemma EntryToDepot(s: seq<AggregatedService>, depot: int, src: DistanceMatrix, lookup: Lookup, i: int)
    requires DistinctServiceIds(s, depot) && 0 <= i < |s|
    ensures var e := CompressedMatrix(s, depot, src, lookup).entries;
      (s[i].id, depot) in e && e[(s[i].id, depot)] == ToDepot(s, depot, src, lookup, i).value
  {
    var ws := OuterWrites(s, depot, src, lookup, |s|);
    var d := ToDepot(s, depot, src, lookup, i);
    OuterWritesSound(s, depot, src, lookup, |s|);
    OuterWritesDepot(s, depot, src, lookup, i);
    forall w | w in ws && (w.from, w.to) == (d.from, d.to)
      ensures w.value == d.value
    {
      assert Intended(s, depot, src, lookup, w);
      if IsDepotWrite(s, depot, src, lookup, w) {
        var a :| 0 <= a < |s| && (w == FromDepot(s, depot, src, lookup, a) || w == ToDepot(s, depot, src, lookup, a));
        assert a == i;
      }
    }
    ApplyValue(map[], ws, (d.from, d.to), d.value);
  }

  lemma EntryKeyed(s: seq<AggregatedService>, depot: int, src: DistanceMatrix, lookup: Lookup, k: (int, int))
    requires k in CompressedMatrix(s, depot, src, lookup).entries
    ensures Keyed(s, depot, k)
  {
    var ws := OuterWrites(s, depot, src, lookup, |s|);
    OuterWritesSound(s, depot, src, lookup, |s|);
    ApplyDomain(map[], ws, k);
    var w :| w in ws && (w.from, w.to) == k;
    assert Intended(s, depot, src, lookup, w);
  }

  /** With distinct ids, the compressed matrix holds exactly: service-to-service entries for
      different services, reaching the target's input and absorbing its internal cost;
      depot-to-service entries absorbing the service's cost; and service-to-depot entries
      without it. */
  lemma CompressedEntries(s: seq<AggregatedService>, depot: int, src: DistanceMatrix, lookup: Lookup)
    requires DistinctServiceIds(s, depot)
    ensures var e := CompressedMatrix(s, depot, src, lookup).entries;
      && (forall i, j :: 0 <= i < |s| && 0 <= j < |s| && i != j ==>
            (s[i].id, s[j].id) in e && e[(s[i].id, s[j].id)] == lookup(src, s[i].output.id, s[j].input.id) + s[j].internalCost)
      && (forall i :: 0 <= i < |s| ==>
            (depot, s[i].id) in e && e[(depot, s[i].id)] == lookup(src, depot, s[i].input.id) + s[i].internalCost)
      && (forall i :: 0 <= i < |s| ==>
            (s[i].id, depot) in e && e[(s[i].id, depot)] == lookup(src, s[i].output.id, depot))
      && (forall k :: k in e ==> Keyed(s, depot, k))
  {
    forall i, j | 0 <= i < |s| && 0 <= j < |s| && i != j
      ensures var e := CompressedMatrix(s, depot, src, lookup).entries;
        (s[i].id, s[j].id) in e && e[(s[i].id, s[j].id)] == lookup(src, s[i].output.id, s[j].input.id) + s[j].internalCost
    {
      EntryBetween(s, depot, src, lookup, i, j);
    }
    forall i | 0 <= i < |s|
      ensures var e := CompressedMatrix(s, depot, src, lookup).entries;
        && (depot, s[i].id) in e && e[(depot, s[i].id)] == lookup(src, depot, s[i].input.id) + s[i].internalCost
        && (s[i].id, depot) in e && e[(s[i].id, depot)] == lookup(src, s[i].output.id, depot)
    {
      EntryFromDepot(s, depot, src, lookup, i);
      EntryToDepot(s, depot, src, lookup, i);
    }
    forall k | k in CompressedMatrix(s, depot, src, lookup).entries
      ensures Keyed(s, depot, k)
    {
      EntryKeyed(s, depot, src, lookup, k);
    }
  }

  /** The pairs the compression fills: two different services, or the depot and a service. */
  predicate Keyed(s: seq<AggregatedService>, depot: int, k: (int, int)) {
    || (exists i, j :: 0 <= i < |s| && 0 <= j < |s| && i != j && k == (s[i].id, s[j].id))
    || (exists i :: 0 <= i < |s| && (k == (depot, s[i].id) || k == (s[i].id, depot)))
  }

  /** `compressMatrix`: fills a matrix of dimension |services| + 1 pair by pair. Two list
      positions hold different service objects, so the source's identity test `from != to`
      compares positions. */
  method CompressMatrix(services: seq<AggregatedService>, depot: Depot, distances: DistanceMatrix, lookup: Lookup)
    returns (matrix: DistanceMatrix)
    ensures matrix == CompressedMatrix(services, depot.id, distances, lookup)
  {
    matrix := EmptyMatrix(|services| + 1, false);
    var i := 0;
    while i < |services|
      invariant 0 <= i <= |services| && matrix.dimensions == |services| + 1 && !matrix.symmetrical
      invariant matrix.entries == Apply(map[], OuterWrites(services, depot.id, distances, lookup, i))
    {
      ghost var prefix := OuterWrites(services, depot.id, distances, lookup, i);
      matrix := CompressRow(services, distances, lookup, i, matrix, prefix);
      matrix := CompressDepot(services, depot, distances, lookup, i, matrix, prefix);
      OuterWritesSnoc(services, depot.id, distances, lookup, i);
      i := i + 1;
    }
  }

  /** One iteration of the inner loop of `compressMatrix` writes both directions between
      two different services. */
  lemma InnerStep(s: seq<AggregatedService>, src: DistanceMatrix, lookup: Lookup, i: int, j: int, prefix: seq<Write>)
    requires 0 <= i < |s| && 0 <= j < |s|
    ensures var m := Apply(map[], prefix + InnerWrites(s, src, lookup, i, j));
      Apply(map[], prefix + InnerWrites(s, src, lookup, i, j + 1)) ==
        if i != j then
          m[(s[i].id, s[j].id) := lookup(src, s[i].output.id, s[j].input.id) + s[j].internalCost]
           [(s[j].id, s[i].id) := lookup(src, s[j].output.id, s[i].input.id) + s[i].internalCost]
        else m
  {
    var before := prefix + InnerWrites(s, src, lookup, i, j);
    if i != j {
      var b1, b2 := Between(s, src, lookup, i, j), Between(s, src, lookup, j, i);
      ApplySnoc(map[], before, b1);
      ApplySnoc(map[], before + [b1], b2);
      assert prefix + InnerWrites(s, src, lookup, i, j + 1) == before + [b1] + [b2];
    } else {
      assert prefix + InnerWrites(s, src, lookup, i, j + 1) == before;
    }
  }

  /** The end of an iteration of the outer loop of `compressMatrix`: both directions between
      the depot and service `i`, on a matrix holding the effect of `prefix` and of the inner
      loop. */
  method CompressDepot(services: seq<AggregatedService>, depot: Depot, distances: DistanceMatrix, lookup: Lookup, i: int,
                       matrix: DistanceMatrix, ghost prefix: seq<Write>) returns (r: DistanceMatrix)
    requires 0 <= i < |services|
    requires matrix.entries == Apply(map[], prefix + InnerWrites(services, distances, lookup, i, |services|))
    ensures r.dimensions == matrix.dimensions && r.symmetrical == matrix.symmetrical
    ensures r.entries == Apply(map[], prefix + RowWrites(services, depot.id, distances, lookup, i))
  {
    var from := services[i];
    var fromDepot := lookup(distances, depot.id, from.input.id) + from.internalCost;
    r := SetDistance(matrix, depot.id, from.id, fromDepot);
    var toDepot := lookup(distances, from.output.id, depot.id);
    r := SetDistance(r, from.id, depot.id, toDepot);
    ghost var inner := InnerWrites(services, distances, lookup, i, |services|);
    ghost var d1, d2 := FromDepot(services, depot.id, distances, lookup, i), ToDepot(services, depot.id, distances, lookup, i);
    Associative(prefix, inner, [d1, d2]);
    ApplyTwo(map[], prefix + inner, d1, d2);
  }

  /** The inner loop of `compressMatrix` for the outer service `i`, on a matrix holding the
      effect of the writes `prefix`. */
  method CompressRow(services: seq<AggregatedService>, distances: DistanceMatrix, lookup: Lookup, i: int,
                     matrix: DistanceMatrix, ghost prefix: seq<Write>) returns (r: DistanceMatrix)
    requires 0 <= i < |services| && matrix.entries == Apply(map[], prefix)
    ensures r.dimensions == matrix.dimensions && r.symmetrical == matrix.symmetrical
    ensures r.entries == Apply(map[], prefix + InnerWrites(services, distances, lookup, i, |services|))
  {
    r := matrix;
    var from := services[i];
    var j := 0;
    assert prefix + InnerWrites(services, distances, lookup, i, 0) == prefix;
    while j < |services|
      invariant 0 <= j <= |services|
      invariant r.dimensions == matrix.dimensions && r.symmetrical == matrix.symmetrical
      invariant r.entries == Apply(map[], prefix + InnerWrites(services, distances, lookup, i, j))
    {
      var to := services[j];
      if i != j {
        var fromTo := lookup(distances, from.output.id, to.input.id) + to.internalCost;
        r := SetDistance(r, from.id, to.id, fromTo);
        var toFrom := lookup(distances, to.output.id, from.input.id) + from.internalCost;
        r := SetDistance(r, to.id, from.id, toFrom);
      }
      InnerStep(services, distances, lookup, i, j, prefix);
      j := j + 1;
    }
  }

  // ---------------------------------------------------------------------------------------
  // Copying the matrix out

  /** Two boxed `Long` ids compared with `!=`: values in -128..127 share one cached box, so
      the test is value inequality there; equal values outside that range are two boxes. */
  predicate BoxedDiffer(a: int, b: int) {
    a != b || a < -128 || 127 < a
  }

  /** Row `from` of the copy, targets 1..n; `boxed` selects the comparison as written. */
  function CopyRow(m: DistanceMatrix, lookup: Lookup, from: int, n: int, boxed: bool): seq<Transport> {
    if n <= 0 then [] else
      CopyRow(m, lookup, from, n - 1, boxed)
      + (if (if boxed then BoxedDiffer(from, n) else from != n) then [Transport(from, n, lookup(m, from, n))] else [])
  }

  /** Rows 1..k of the copy, each over targets 1..d. */
  function CopyRows(m: DistanceMatrix, lookup: Lookup, k: int, d: int, boxed: bool): seq<Transport> {
    if k <= 0 then [] else CopyRows(m, lookup, k - 1, d, boxed) + CopyRow(m, lookup, k, d, boxed)
  }

  /** `copyDistanceMatrix` as written, with the identity comparison of boxed ids. */
  method CopyDistanceMatrixAsWritten(m: DistanceMatrix, lookup: Lookup) returns (r: seq<Transport>)
    ensures r == CopyRows(m, lookup, m.dimensions, m.dimensions, true)
  {
    r := [];
    var from := 1;
    while from <= m.dimensions
      invariant (m.dimensions < 1 && from == 1) || 1 <= from <= m.dimensions + 1
      invariant r == CopyRows(m, lookup, from - 1, m.dimensions, true)
    {
      var row := [];
      var to := 1;
      while to <= m.dimensions
        invariant 1 <= to <= m.dimensions + 1 && row == CopyRow(m, lookup, from, to - 1, true)
      {
        if BoxedDiffer(from, to) {
          row := row + [Transport(from, to, lookup(m, from, to))];
        }
        to := to + 1;
      }
      r := r + row;
      from := from + 1;
    }
  }

  /** `copyDistanceMatrix` with the evidently intended value comparison of ids. */
  method CopyDistanceMatrix(m: DistanceMatrix, lookup: Lookup) returns (r: seq<Transport>)
    ensures r == CopyRows(m, lookup, m.dimensions, m.dimensions, false)
  {
    r := [];
    var from := 1;
    while from <= m.dimensions
      invariant (m.dimensions < 1 && from == 1) || 1 <= from <= m.dimensions + 1
      invariant r == CopyRows(m, lookup, from - 1, m.dimensions, false)
    {
      var row := [];
      var to := 1;
      while to <= m.dimensions
        invariant 1 <= to <= m.dimensions + 1 && row == CopyRow(m, lookup, from, to - 1, false)
      {
        if from != to {
          row := row + [Transport(from, to, lookup(m, from, to))];
        }
        to := to + 1;
      }
      r := r + row;
      from := from + 1;
    }
  }

  lemma {:induction false} CopyRowLength(m: DistanceMatrix, lookup: Lookup, from: int, n: int)
    requires 1 <= from && 0 <= n
    ensures |CopyRow(m, lookup, from, n, false)| == if from <= n then n - 1 else n
  {
    if n > 0 {
      CopyRowLength(m, lookup, from, n - 1);
    }
  }

  lemma {:induction false} CopyRowMembers(m: DistanceMatrix, lookup: Lookup, from: int, n: int)
    ensures forall t :: t in CopyRow(m, lookup, from, n, false) <==> RowPair(m, lookup, from, n, t)
  {
    if n > 0 {
      CopyRowMembers(m, lookup, from, n - 1);
    }
  }

  /** `t` is an entry of row `from` of the corrected copy over targets 1..n. */
  predicate RowPair(m: DistanceMatrix, lookup: Lookup, from: int, n: int, t: Transport) {
    t.from == from && 1 <= t.to <= n && t.to != from && t.distance == lookup(m, from, t.to)
  }

  /** The corrected copy emits d * (d - 1) entries for dimension d. */
  lemma {:induction false} CopyRowsLength(m: DistanceMatrix, lookup: Lookup, k: int, d: int)
    requires 0 <= k <= d
    ensures |CopyRows(m, lookup, k, d, false)| == k * (d - 1)
  {
    if k > 0 {
      CopyRowsLength(m, lookup, k - 1, d);
      CopyRowLength(m, lookup, k, d);
      assert k * (d - 1) == (k - 1) * (d - 1) + (d - 1);
    }
  }

  /** The corrected copy emits an entry exactly for each ordered pair of different ids in
      1..d, none on the diagonal, each with the matrix's distance for that pair. */
  lemma {:induction false} CopyRowsMembers(m: DistanceMatrix, lookup: Lookup, k: int, d: int)
    ensures forall t :: t in CopyRows(m, lookup, k, d, false) <==>
      1 <= t.from <= k && 1 <= t.to <= d && t.from != t.to && t.distance == lookup(m, t.from, t.to)
  {
    if k > 0 {
      CopyRowsMembers(m, lookup, k - 1, d);
      CopyRowMembers(m, lookup, k, d);
      var prev, row := CopyRows(m, lookup, k - 1, d, false), CopyRow(m, lookup, k, d, false);
      assert CopyRows(m, lookup, k, d, false) == prev + row;
      forall t: Transport
        ensures t in prev + row <==> 1 <= t.from <= k && 1 <= t.to <= d && t.from != t.to && t.distance == lookup(m, t.from, t.to)
      {
        assert t in row <==> RowPair(m, lookup, k, d, t);
      }
    }
  }

  lemma {:induction false} CopyRowAgrees(m: DistanceMatrix, lookup: Lookup, from: int, n: int)
    requires 1 <= from <= 127
    ensures CopyRow(m, lookup, from, n, true) == CopyRow(m, lookup, from, n, false)
  {
    if n > 0 {
      CopyRowAgrees(m, lookup, from, n - 1);
    }
  }

  /** Up to dimension 127 every id is a cached box, and the copy as written is the intended one. */
  lemma {:induction false} CopyAgreesBelowCache(m: DistanceMatrix, lookup: Lookup, k: int, d: int)
    requires k <= 127
    ensures CopyRows(m, lookup, k, d, true) == CopyRows(m, lookup, k, d, false)
  {
    if k > 0 {
      CopyAgreesBelowCache(m, lookup, k - 1, d);
      CopyRowAgrees(m, lookup, k, d);
    }
  }

  lemma {:induction false} CopyRowHas(m: DistanceMatrix, lookup: Lookup, from: int, to: int, n: int, boxed: bool)
    requires 1 <= to <= n && (if boxed then BoxedDiffer(from, to) else from != to)
    ensures Transport(from, to, lookup(m, from, to)) in CopyRow(m, lookup, from, n, boxed)
  {
    if to < n {
      CopyRowHas(m, lookup, from, to, n - 1, boxed);
    }
  }

  lemma {:induction false} CopyRowsHas(m: DistanceMatrix, lookup: Lookup, from: int, k: int, d: int, t: Transport, boxed: bool)
    requires 1 <= from <= k && t in CopyRow(m, lookup, from, d, boxed)
    ensures t in CopyRows(m, lookup, k, d, boxed)
  {
    if from < k {
      CopyRowsHas(m, lookup, from, k - 1, d, t, boxed);
    }
  }

  /** From dimension 128 on, the copy as written also emits the diagonal entry (128, 128). */
  lemma CopyAsWrittenEmitsDiagonal(m: DistanceMatrix, lookup: Lookup, d: int)
    requires d >= 128
    ensures Transport(128, 128, lookup(m, 128, 128)) in CopyRows(m, lookup, d, d, true)
    ensures Transport(128, 128, lookup(m, 128, 128)) !in CopyRows(m, lookup, d, d, false)
  {
    CopyRowHas(m, lookup, 128, 128, d, true);
    CopyRowsHas(m, lookup, 128, d, d, Transport(128, 128, lookup(m, 128, 128)), true);
    CopyRowsMembers(m, lookup, d, d);
  }

  // ---------------------------------------------------------------------------------------
  // The conversion

  /** The solver's jobs: one per service, named by its id and sized by its internal cost. */
  function Jobs(s: seq<AggregatedService>): (r: seq<Job>)
    ensures |r| == |s| && forall k :: 0 <= k < |s| ==> r[k] == Job(s[k].id, s[k].internalCost)
  {
    if s == [] then [] else Jobs(s[..|s| - 1]) + [Job(s[|s| - 1].id, s[|s| - 1].internalCost)]
  }

  /** `convertToJsprit`: rejects a metric other than Explicit, then a missing distance
      matrix, before touching anything; otherwise aggregates the branches the compression
      service returns (`branches`), compresses the matrix and copies it into the costs. */
  method ConvertToJsprit(problem: VrpProblem, branches: seq<TreeBranch>, lookup: Lookup)
    returns (r: Result<JspritProblem, ConversionError>)
    requires forall a, b :: 0 <= a < b < |branches| ==> branches[a] != branches[b]
    modifies branches
    ensures problem.metric != Explicit ==> r == Err(MetricNotExplicit) && unchanged(branches)
    ensures problem.metric == Explicit && problem.distanceMatrix.None? ==>
      r == Err(NullDistanceMatrix) && unchanged(branches)
    ensures r.Ok? ==> problem.metric == Explicit && problem.distanceMatrix.Some?
    ensures r.Ok? ==> |r.value.services| == |branches| && forall k :: 0 <= k < |branches| ==>
      Some(r.value.services[k]) == Service(old(VerticesOf(branches))[k], branches[k].start, branches[k].end, k + 2)
    ensures r.Ok? ==> r.value.matrix == CompressedMatrix(r.value.services, problem.depot.id, problem.distanceMatrix.value, lookup)
    ensures r.Ok? ==> r.value.costs == CopyRows(r.value.matrix, lookup, |branches| + 1, |branches| + 1, false)
    ensures r.Ok? ==> r.value.jobs == Jobs(r.value.services)
    ensures problem.metric == Explicit && problem.distanceMatrix.Some? ==>
      (r.Ok? <==> forall k :: 0 <= k < |branches| ==> Service(old(VerticesOf(branches))[k], branches[k].start, branches[k].end, k + 2).Some?)
  {
    if problem.metric != Explicit {
      return Err(MetricNotExplicit);
    }
    if problem.distanceMatrix.None? {
      return Err(NullDistanceMatrix);
    }
    var services := AggregateServices(branches);
    if services.Err? {
      return Err(services.error);
    }
    var matrix := CompressMatrix(services.value, problem.depot, problem.distanceMatrix.value, lookup);
    var costs := CopyDistanceMatrix(matrix, lookup);
    return Ok(JspritProblem(services.value, matrix, costs, Jobs(services.value)));
  }

  /** Aggregated services carry the ids 2, 3, ... in order, so with the depot's id below 2
      the compressed matrix fills every off-diagonal pair of ids 1..|services|+1 when the
      depot is 1. */
  lemma AggregatedIdsDistinct(s: seq<AggregatedService>, depot: int)
    requires forall k :: 0 <= k < |s| ==> s[k].id == k + 2
    requires depot < 2
    ensures DistinctServiceIds(s, depot)
  {
  }

  /** A lookup that answers what the matrix stores, wherever it stores something. */
  ghost predicate ReadsEntries(lookup: Lookup) {
    forall m: DistanceMatrix, i: int, j: int :: (i, j) in m.entries ==> lookup(m, i, j) == m.entries[(i, j)]
  }

  /** With the depot at id 1 and the services at ids 2, 3, ..., the compressed matrix stores
      every ordered pair of different ids 1..|services|+1. */
  lemma CompressedCoversIds(s: seq<AggregatedService>, src: DistanceMatrix, lookup: Lookup, a: int, b: int)
    requires forall k :: 0 <= k < |s| ==> s[k].id == k + 2
    requires 1 <= a <= |s| + 1 && 1 <= b <= |s| + 1 && a != b
    ensures (a, b) in CompressedMatrix(s, 1, src, lookup).entries
  {
    CompressedEntries(s, 1, src, lookup);
    if a == 1 {
      assert s[b - 2].id == b;
    } else if b == 1 {
      assert s[a - 2].id == a;
    } else {
      assert s[a - 2].id == a && s[b - 2].id == b;
    }
  }

  /** Under a lookup that returns what a matrix stores, with the depot at id 1 and the
      services at ids 2, 3, ...: the solver gets (|services| + 1) * |services| costs, one for
      each ordered pair of different ids, each the compressed distance of its pair. */
  lemma CostsAreCompressedDistances(s: seq<AggregatedService>, src: DistanceMatrix, lookup: Lookup)
    requires forall k :: 0 <= k < |s| ==> s[k].id == k + 2
    requires ReadsEntries(lookup)
    ensures var mx := CompressedMatrix(s, 1, src, lookup);
      var costs := CopyRows(mx, lookup, |s| + 1, |s| + 1, false);
      && |costs| == (|s| + 1) * |s|
      && (forall t :: t in costs ==> (t.from, t.to) in mx.entries && t.distance == mx.entries[(t.from, t.to)])
      && (forall a, b :: 1 <= a <= |s| + 1 && 1 <= b <= |s| + 1 && a != b ==>
            (a, b) in mx.entries && Transport(a, b, mx.entries[(a, b)]) in costs)
  {
    var mx := CompressedMatrix(s, 1, src, lookup);
    CopyRowsLength(mx, lookup, |s| + 1, |s| + 1);
    CopyRowsMembers(mx, lookup, |s| + 1, |s| + 1);
    forall a, b | 1 <= a <= |s| + 1 && 1 <= b <= |s| + 1 && a != b
      ensures (a, b) in mx.entries
    {
      CompressedCoversIds(s, src, lookup, a, b);
    }
  }
}
