/** `ProblemToGraphConverter`: the complete digraph over the depot and the clients of an
    instance, weighted by its distance matrix and rooted at the depot. */
module GraphConversion {
  import opened Outcomes
  import opened Vrp
  import opened Sequences

  /** A vertex of the graph: a location id, where it lies and its demand. */
  datatype LocationVertex = LocationVertex(id: int, location: Location, demand: int)

  /** An `Edge` of the graph: its endpoints and its weight, which is also the graph weight. */
  datatype Edge = Edge(source: LocationVertex, target: LocationVertex, weight: int)

  /** A `RoutedGraph`: the vertices and the edges in the order they were added, and the root. */
  datatype RoutedGraph = RoutedGraph(vertices: seq<LocationVertex>, edges: seq<Edge>, root: LocationVertex)

  datatype GraphError =
    | IllegalArgument     // a metric other than Explicit or Euclidean
    | NegativeArraySize   // a negative DIMENSION sizes the vertex array
    | IndexOutOfBounds    // no slot for the depot, or a client id outside 1..DIMENSION
    | NullPointer         // `addEdges` reaches an empty slot or a missing matrix

  /** `DistanceService.getEuclideanDistance` between two locations. */
  type Distance = (Location, Location) -> int

  // ---------------------------------------------------------------------------------------
  // The ordered index pairs of `addEdges`

  /** The `k`-th pair (i, j), i != j, of the row-major walk over a `d` by `d` grid: row
      `k / (d - 1)`, skipping the diagonal. */
  function Pair(d: int, k: int): (int, int)
    requires d >= 2
  {
    var i, c := k / (d - 1), k % (d - 1);
    (i, if c < i then c else c + 1)
  }

  /** `a` copies of `b` added up; kept apart from `*` so that the walk's positions stay
      linear for the solver. */
  function Times(a: nat, b: int): (r: int)
    ensures b >= 0 ==> r >= 0
  {
    if a == 0 then 0 else Times(a - 1, b) + b
  }

  lemma {:induction false} TimesIsProduct(a: nat, b: int)
    ensures Times(a, b) == a * b
  {
    if a > 0 {
      TimesIsProduct(a - 1, b);
    }
  }

  /** Where the walk meets the pair (i, j): after `i` full rows of d - 1 pairs. */
  function Position(d: int, i: nat, j: int): int {
    Times(i, d - 1) + if j < i then j else j - 1
  }

  /** A non-zero multiple of `q` is at least `q` away from zero. */
  lemma {:induction false} MulSign(n: int, q: int)
    requires q > 0
    ensures n >= 1 ==> n * q >= q
    ensures n <= -1 ==> n * q <= -q
    decreases if n < 0 then -n else n
  {
    if n > 1 {
      MulSign(n - 1, q);
    } else if n < -1 {
      MulSign(n + 1, q);
    }
  }

  /** Division by `q` undoes `i * q + c` for a remainder `c` in 0..q-1. */
  lemma DivModUnique(q: int, i: nat, c: int)
    requires q > 0 && 0 <= c < q
    ensures (Times(i, q) + c) / q == i && (Times(i, q) + c) % q == c
  {
    TimesIsProduct(i, q);
    var x := i * q + c;
    var a, b := x / q, x % q;
    assert (i - a) * q == b - c;
    MulSign(i - a, q);
  }

  /** A row `i` whose start `i * q` lies at or below `k` and whose end lies beyond it is
      a row from 0 to `n - 1` when `k` lies in the first `n` rows. */
  lemma RowBounds(k: int, q: int, n: int, i: int, r: int)
    requires q > 0 && 0 <= k < n * q && k == i * q + r && 0 <= r < q
    ensures 0 <= i < n
  {
    MulSign(i + 1, q);
    MulSign(i - n, q);
    assert (i + 1) * q == i * q + q;
    assert (i - n) * q == i * q - n * q;
  }

  /** Division by `q` splits a number below `n` rows of `q` into a row below `n` and a
      remainder. */
  lemma DivModBelow(k: int, q: int, n: nat)
    requires q > 0 && 0 <= k < Times(n, q)
    ensures 0 <= k / q < n && 0 <= k % q < q && k == Times(k / q, q) + k % q
  {
    var i, r := k / q, k % q;
    TimesIsProduct(n, q);
    RowBounds(k, q, n, i, r);
    TimesIsProduct(i, q);
  }

  /** Whole rows before row `n` end at least a row before row `n` ends. */
  lemma {:induction false} TimesBelow(i: nat, n: nat, q: int)
    requires i < n && q >= 0
    ensures Times(i, q) + q <= Times(n, q)
  {
    if i < n - 1 {
      TimesBelow(i, n - 1, q);
    }
  }

  /** Every off-diagonal pair of the grid is met, at a position within the walk. */
  lemma PairAtPosition(d: int, i: int, j: int)
    requires d >= 2 && 0 <= i < d && 0 <= j < d && i != j
    ensures 0 <= Position(d, i, j) < Times(d, d - 1)
    ensures Pair(d, Position(d, i, j)) == (i, j)
  {
    var c := if j < i then j else j - 1;
    DivModUnique(d - 1, i, c);
    TimesBelow(i, d, d - 1);
  }

  /** Every step of the walk meets an off-diagonal pair of the grid, at its own position. */
  lemma PositionOfPair(d: int, k: int)
    requires d >= 2 && 0 <= k < Times(d, d - 1)
    ensures var (i, j) := Pair(d, k); 0 <= i < d && 0 <= j < d && i != j && Position(d, i, j) == k
  {
    DivModBelow(k, d - 1, d);
  }

  /** The walk meets no pair twice. */
  lemma PairsDistinct(d: int, k: int, l: int)
    requires d >= 2 && 0 <= k < Times(d, d - 1) && 0 <= l < Times(d, d - 1) && k != l
    ensures Pair(d, k) != Pair(d, l)
  {
    PositionOfPair(d, k);
    PositionOfPair(d, l);
  }

  // ---------------------------------------------------------------------------------------
  // Edges

  /** The edge `addEdges` adds for the slot pair `p`, weighted by the matrix distance between
      the two vertex ids. */
  function EdgeAt(slots: seq<Option<LocationVertex>>, m: DistanceMatrix, lookup: Lookup, p: (int, int)): Edge
    requires 0 <= p.0 < |slots| && 0 <= p.1 < |slots| && slots[p.0].Some? && slots[p.1].Some?
  {
    var from, to := slots[p.0].value, slots[p.1].value;
    Edge(from, to, lookup(m, from.id, to.id))
  }

  /** Some slot of the vertex array is still empty. */
  predicate HasEmptySlot(slots: seq<Option<LocationVertex>>) {
    exists x :: 0 <= x < |slots| && slots[x].None?
  }

  /** What `addEdges` adds over the vertex array `slots`, or the failure it meets: with two
      slots or more every slot and the matrix are read. */
  function EdgesOf(slots: seq<Option<LocationVertex>>, matrix: Option<DistanceMatrix>, lookup: Lookup): Result<seq<Edge>, GraphError> {
    var d := |slots|;
    if d < 2 then Ok([])
    else if matrix.None? || HasEmptySlot(slots) then Err(NullPointer)
    else Ok(seq(Times(d, d - 1), k requires 0 <= k < Times(d, d - 1) =>
      PositionOfPair(d, k);
      EdgeAt(slots, matrix.value, lookup, Pair(d, k))))
  }

  /** `addEdges`: one edge for every ordered pair of different slots, row by row. */
  method AddEdges(slots: array<Option<LocationVertex>>, matrix: Option<DistanceMatrix>, lookup: Lookup)
    returns (r: Result<seq<Edge>, GraphError>)
    ensures r == EdgesOf(slots[..], matrix, lookup)
  {
    var d := slots.Length;
    var edges: seq<Edge> := [];
    for i := 0 to d
      invariant |edges| == Times(i, d - 1)
      invariant d >= 2 && i > 0 ==> matrix.Some?
      invariant forall x :: 0 <= x < i && d >= 2 ==> slots[x].Some?
      invariant forall k :: 0 <= k < |edges| ==> d >= 2 && EdgeIs(slots[..], matrix, lookup, k, edges[k])
    {
      for j := 0 to d
        invariant |edges| == Times(i, d - 1) + (if j > i then j - 1 else j)
        invariant d >= 2 && i > 0 ==> matrix.Some?
        invariant forall x :: 0 <= x < i && d >= 2 ==> slots[x].Some?
        invariant (j >= 2 || (j == 1 && i != 0)) ==> matrix.Some? && slots[i].Some?
        invariant forall k :: 0 <= k < |edges| ==> d >= 2 && EdgeIs(slots[..], matrix, lookup, k, edges[k])
      {
        if i != j {
          if matrix.None? || slots[i].None? || slots[j].None? {
            return Err(NullPointer);
          }
          PairAtPosition(d, i, j);
          var from, to := slots[i].value, slots[j].value;
          edges := edges + [Edge(from, to, lookup(matrix.value, from.id, to.id))];
        }
      }
    }
    if d >= 2 {
      assert !HasEmptySlot(slots[..]);
      assert edges == EdgesOf(slots[..], matrix, lookup).value;
    }
    return Ok(edges);
  }

  /** `e` is the edge of the walk's `k`-th pair. */
  predicate EdgeIs(slots: seq<Option<LocationVertex>>, matrix: Option<DistanceMatrix>, lookup: Lookup, k: int, e: Edge)
    requires |slots| >= 2
  {
    var d := |slots|;
    var p := Pair(d, k);
    && 0 <= p.0 < d && 0 <= p.1 < d && matrix.Some? && slots[p.0].Some? && slots[p.1].Some?
    && e == EdgeAt(slots, matrix.value, lookup, p)
  }

  /** With two slots or more a successful `addEdges` has read every slot and the matrix and
      added d * (d - 1) edges. */
  lemma EdgesOfCount(slots: seq<Option<LocationVertex>>, matrix: Option<DistanceMatrix>, lookup: Lookup)
    requires |slots| >= 2 && EdgesOf(slots, matrix, lookup).Ok?
    ensures |EdgesOf(slots, matrix, lookup).value| == |slots| * (|slots| - 1)
    ensures matrix.Some? && forall x :: 0 <= x < |slots| ==> slots[x].Some?
  {
    TimesIsProduct(|slots|, |slots| - 1);
  }

  /** The edge for the ordered pair (i, j) of different slots sits at `Position(d, i, j)`. */
  lemma EdgesOfAt(slots: seq<Option<LocationVertex>>, matrix: Option<DistanceMatrix>, lookup: Lookup, d: int, i: int, j: int)
    requires d == |slots| >= 2 && EdgesOf(slots, matrix, lookup).Ok?
    requires 0 <= i < d && 0 <= j < d && i != j
    ensures var es := EdgesOf(slots, matrix, lookup).value;
      0 <= Position(d, i, j) < |es| && matrix.Some? && slots[i].Some? && slots[j].Some? &&
      es[Position(d, i, j)] == Edge(slots[i].value, slots[j].value, lookup(matrix.value, slots[i].value.id, slots[j].value.id))
  {
    PairAtPosition(d, i, j);
  }

  /** `addEdges` adds exactly one edge per ordered pair of different slots: the walk has
      d * (d - 1) steps, meets every such pair (at `Position`), never meets one twice and never
      joins a slot to itself; each edge weighs the matrix distance between the two ids. */
  lemma EdgesOfPairs(slots: seq<Option<LocationVertex>>, matrix: Option<DistanceMatrix>, lookup: Lookup)
    requires |slots| >= 2 && EdgesOf(slots, matrix, lookup).Ok?
    ensures var d, es := |slots|, EdgesOf(slots, matrix, lookup).value;
      && |es| == d * (d - 1)
      && matrix.Some? && (forall x :: 0 <= x < d ==> slots[x].Some?)
      && (forall i, j :: 0 <= i < d && 0 <= j < d && i != j ==>
            0 <= Position(d, i, j) < |es| &&
            es[Position(d, i, j)] == Edge(slots[i].value, slots[j].value, lookup(matrix.value, slots[i].value.id, slots[j].value.id)))
      && (forall k :: 0 <= k < |es| ==> Pair(d, k).0 != Pair(d, k).1)
      && (forall k, l :: 0 <= k < l < |es| ==> Pair(d, k) != Pair(d, l))
  {
    var d := |slots|;
    EdgesOfCount(slots, matrix, lookup);
    forall i, j | 0 <= i < d && 0 <= j < d && i != j
      ensures var es := EdgesOf(slots, matrix, lookup).value;
        0 <= Position(d, i, j) < |es| &&
        es[Position(d, i, j)] == Edge(slots[i].value, slots[j].value, lookup(matrix.value, slots[i].value.id, slots[j].value.id))
    {
      EdgesOfAt(slots, matrix, lookup, d, i, j);
    }
    forall k | 0 <= k < Times(d, d - 1)
      ensures Pair(d, k).0 != Pair(d, k).1
    {
      PositionOfPair(d, k);
    }
    forall k, l | 0 <= k < l < Times(d, d - 1)
      ensures Pair(d, k) != Pair(d, l)
    {
      PairsDistinct(d, k, l);
    }
  }

  // ---------------------------------------------------------------------------------------
  // Vertices

  /** `Long.intValue()`: the low 32 bits of an id, as a signed `int`. */
  function IntValue(x: int): (r: int)
    ensures -0x8000_0000 <= r < 0x8000_0000
    ensures (x - r) % 0x1_0000_0000 == 0
    ensures -0x8000_0000 <= x < 0x8000_0000 ==> r == x
  {
    var low := x % 0x1_0000_0000;
    if low < 0x8000_0000 then low else low - 0x1_0000_0000
  }

  /** The slot of a client in the vertex array: its id less one. */
  function Slot(c: Client): int {
    IntValue(c.id) - 1
  }

  /** The depot's vertex carries no demand. */
  function DepotVertex(depot: Depot): LocationVertex {
    LocationVertex(depot.id, depot.location, 0)
  }

  function ClientVertex(c: Client): LocationVertex {
    LocationVertex(c.id, c.location, c.amount)
  }

  /** The graph's vertices: the depot, then the clients in order. */
  function Vertices(depot: Depot, cs: seq<Client>): (r: seq<LocationVertex>)
    ensures |r| == |cs| + 1 && r[0] == DepotVertex(depot)
    ensures forall p :: 0 <= p < |cs| ==> r[p + 1] == ClientVertex(cs[p])
  {
    [DepotVertex(depot)] + seq(|cs|, p requires 0 <= p < |cs| => ClientVertex(cs[p]))
  }

  predicate SlotsInRange(d: int, cs: seq<Client>) {
    forall p :: 0 <= p < |cs| ==> 0 <= Slot(cs[p]) < d
  }

  /** The vertex array once the depot and the clients are stored, a later client overwriting
      an earlier one with the same slot. */
  function Placed(d: int, depot: Depot, cs: seq<Client>): (r: seq<Option<LocationVertex>>)
    requires d >= 1 && SlotsInRange(d, cs)
    ensures |r| == d && r[0].Some?
  {
    if cs == [] then seq(d, x => if x == 0 then Some(DepotVertex(depot)) else None)
    else
      var c := cs[|cs| - 1];
      Placed(d, depot, cs[..|cs| - 1])[Slot(c) := Some(ClientVertex(c))]
  }

  /** Slot `id - 1` holds the last client with that id. */
  lemma {:induction false} PlacedClient(d: int, depot: Depot, cs: seq<Client>, p: int)
    requires d >= 1 && SlotsInRange(d, cs) && 0 <= p < |cs|
    requires forall q :: p < q < |cs| ==> Slot(cs[q]) != Slot(cs[p])
    ensures Placed(d, depot, cs)[Slot(cs[p])] == Some(ClientVertex(cs[p]))
  {
    if p < |cs| - 1 {
      var init := cs[..|cs| - 1];
      assert SlotsInRange(d, init) by {
        forall q | 0 <= q < |init| ensures 0 <= Slot(init[q]) < d {
          assert init[q] == cs[q];
        }
      }
      assert forall q :: p < q < |init| ==> init[q] == cs[q];
      PlacedClient(d, depot, init, p);
      assert init[p] == cs[p];
    }
  }

  /** A slot no client claims holds the depot at 0 and nothing elsewhere. */
  lemma {:induction false} PlacedUnclaimed(d: int, depot: Depot, cs: seq<Client>, x: int)
    requires d >= 1 && SlotsInRange(d, cs) && 0 <= x < d
    requires forall p :: 0 <= p < |cs| ==> Slot(cs[p]) != x
    ensures Placed(d, depot, cs)[x] == if x == 0 then Some(DepotVertex(depot)) else None
  {
    if cs != [] {
      var init := cs[..|cs| - 1];
      assert forall q :: 0 <= q < |init| ==> init[q] == cs[q];
      PlacedUnclaimed(d, depot, init, x);
    }
  }

  // ---------------------------------------------------------------------------------------
  // convertExplicit

  /** The graph `convertExplicit` builds from the problem's stored matrix, or its failure. */
  function ExplicitGraph(problem: VrpProblem, lookup: Lookup): Result<RoutedGraph, GraphError> {
    var d, cs := problem.dimensions, problem.clients;
    if d < 0 then Err(NegativeArraySize)
    else if d == 0 || !SlotsInRange(d, cs) then Err(IndexOutOfBounds)
    else
      var slots := Placed(d, problem.depot, cs);
      match EdgesOf(slots, problem.distanceMatrix, lookup)
      case Err(e) => Err(e)
      case Ok(edges) => Ok(RoutedGraph(Vertices(problem.depot, cs), edges, slots[0].value))
  }

  /** `convertExplicit`: stores the depot in slot 0 and each client in slot `id - 1` of a vertex
      array of size DIMENSION, adds them all to the graph, then adds the edges. */
  method ConvertExplicit(problem: VrpProblem, lookup: Lookup) returns (r: Result<RoutedGraph, GraphError>)
    ensures r == ExplicitGraph(problem, lookup)
  {
    var d, cs := problem.dimensions, problem.clients;
    if d < 0 {
      return Err(NegativeArraySize);
    }
    if d == 0 {
      return Err(IndexOutOfBounds);
    }
    var slots := new Option<LocationVertex>[d](_ => None);
    slots[0] := Some(DepotVertex(problem.depot));
    var vertices := [slots[0].value];
    assert slots[..] == Placed(d, problem.depot, cs[..0]);
    for p := 0 to |cs|
      invariant SlotsInRange(d, cs[..p])
      invariant slots[..] == Placed(d, problem.depot, cs[..p])
      invariant vertices == Vertices(problem.depot, cs[..p])
    {
      var v := ClientVertex(cs[p]);
      var x := Slot(cs[p]);
      if !(0 <= x < d) {
        assert !SlotsInRange(d, cs);
        return Err(IndexOutOfBounds);
      }
      PlaceStep(d, problem.depot, cs, p);
      slots[x] := Some(v);
      vertices := vertices + [v];
    }
    assert cs[..|cs|] == cs;
    var edges := AddEdges(slots, problem.distanceMatrix, lookup);
    if edges.Err? {
      return Err(edges.error);
    }
    return Ok(RoutedGraph(vertices, edges.value, slots[0].value));
  }

  /** Storing one more client extends the placement and the vertex list. */
  lemma PlaceStep(d: int, depot: Depot, cs: seq<Client>, p: int)
    requires d >= 1 && 0 <= p < |cs| && SlotsInRange(d, cs[..p]) && 0 <= Slot(cs[p]) < d
    ensures SlotsInRange(d, cs[..p + 1])
    ensures Placed(d, depot, cs[..p + 1]) == Placed(d, depot, cs[..p])[Slot(cs[p]) := Some(ClientVertex(cs[p]))]
    ensures Vertices(depot, cs[..p + 1]) == Vertices(depot, cs[..p]) + [ClientVertex(cs[p])]
  {
    var s := cs[..p + 1];
    assert s[..p] == cs[..p];
    assert s[p] == cs[p];
    forall q | 0 <= q < |s|
      ensures 0 <= Slot(s[q]) < d
    {
      if q < p {
        assert s[q] == cs[..p][q];
      }
    }
    VerticesSnoc(depot, cs[..p], cs[p]);
    assert cs[..p] + [cs[p]] == s;
  }

  /** One more client adds its vertex at the end. */
  lemma VerticesSnoc(depot: Depot, cs: seq<Client>, c: Client)
    ensures Vertices(depot, cs + [c]) == Vertices(depot, cs) + [ClientVertex(c)]
  {
    var a, b := Vertices(depot, cs + [c]), Vertices(depot, cs) + [ClientVertex(c)];
    forall q | 1 <= q < |a|
      ensures a[q] == b[q]
    {
      assert (cs + [c])[q - 1] == if q - 1 < |cs| then cs[q - 1] else c;
    }
  }

  /** A slot some client claims is filled. */
  lemma {:induction false} PlacedClaimed(d: int, depot: Depot, cs: seq<Client>, p: int)
    requires d >= 1 && SlotsInRange(d, cs) && 0 <= p < |cs|
    ensures Placed(d, depot, cs)[Slot(cs[p])].Some?
  {
    if p < |cs| - 1 && Slot(cs[|cs| - 1]) != Slot(cs[p]) {
      var init := cs[..|cs| - 1];
      assert forall q :: 0 <= q < |init| ==> init[q] == cs[q];
      PlacedClaimed(d, depot, init, p);
    }
  }

  /** Some client has slot `x`. */
  predicate Claimed(cs: seq<Client>, x: int) {
    exists p :: 0 <= p < |cs| && Slot(cs[p]) == x
  }

  /** `convertExplicit` succeeds exactly when DIMENSION is positive, every client id lies in
      1..DIMENSION and, unless DIMENSION is 1, the matrix is present and every slot after the
      depot's is claimed by a client. */
  lemma ExplicitGraphSucceeds(problem: VrpProblem, lookup: Lookup)
    ensures var d, cs := problem.dimensions, problem.clients;
      ExplicitGraph(problem, lookup).Ok? <==>
        d >= 1 && SlotsInRange(d, cs) &&
        (d == 1 || (problem.distanceMatrix.Some? && forall x :: 1 <= x < d ==> Claimed(cs, x)))
  {
    var d, cs := problem.dimensions, problem.clients;
    if d >= 2 && SlotsInRange(d, cs) {
      var slots := Placed(d, problem.depot, cs);
      if HasEmptySlot(slots) {
        var x :| 0 <= x < d && slots[x].None?;
        if Claimed(cs, x) {
          var p :| 0 <= p < |cs| && Slot(cs[p]) == x;
          PlacedClaimed(d, problem.depot, cs, p);
        }
        assert x != 0;
      } else {
        forall x | 1 <= x < d
          ensures Claimed(cs, x)
        {
          if !Claimed(cs, x) {
            PlacedUnclaimed(d, problem.depot, cs, x);
          }
        }
      }
    }
  }

  /** With no client in slot 0 the graph is rooted at the depot's vertex, which carries no
      demand; the vertices are the depot's and then the clients' in order. */
  lemma ExplicitGraphRoot(problem: VrpProblem, lookup: Lookup)
    requires ExplicitGraph(problem, lookup).Ok? && !Claimed(problem.clients, 0)
    ensures var g := ExplicitGraph(problem, lookup).value;
      g.root == DepotVertex(problem.depot) && g.root.demand == 0 && g.root.id == problem.depot.id &&
      |g.vertices| == |problem.clients| + 1 && g.vertices[0] == g.root &&
      forall p :: 0 <= p < |problem.clients| ==> g.vertices[p + 1] == ClientVertex(problem.clients[p])
  {
    PlacedUnclaimed(problem.dimensions, problem.depot, problem.clients, 0);
  }

  // ---------------------------------------------------------------------------------------
  // generateDistanceMatrix

  /** The distance stored from client `i` to client `j`: the Euclidean distance between them,
      or 0 when the two ids are equal. */
  function ClientPairWrite(cs: seq<Client>, euclid: Distance, i: int, j: int): Write
    requires 0 <= i < |cs| && 0 <= j < |cs|
  {
    Write(cs[i].id, cs[j].id, if cs[i].id != cs[j].id then euclid(cs[i].location, cs[j].location) else 0)
  }

  /** The distance stored from client `i` to the depot. */
  function ClientDepotWrite(cs: seq<Client>, depot: Depot, euclid: Distance, i: int): Write
    requires 0 <= i < |cs|
  {
    Write(cs[i].id, depot.id, euclid(cs[i].location, depot.location))
  }

  /** The writes of iteration `i` of the outer loop of `generateDistanceMatrix`. */
  function EuclidRow(cs: seq<Client>, depot: Depot, euclid: Distance, i: int): (r: seq<Write>)
    requires 0 <= i < |cs|
    ensures |r| == |cs| + 1 && r[|cs|] == ClientDepotWrite(cs, depot, euclid, i)
    ensures forall j :: 0 <= j < |cs| ==> r[j] == ClientPairWrite(cs, euclid, i, j)
  {
    seq(|cs|, j requires 0 <= j < |cs| => ClientPairWrite(cs, euclid, i, j)) + [ClientDepotWrite(cs, depot, euclid, i)]
  }

  function EuclidRows(cs: seq<Client>, depot: Depot, euclid: Distance): (r: seq<seq<Write>>)
    ensures |r| == |cs| && forall i :: 0 <= i < |cs| ==> r[i] == EuclidRow(cs, depot, euclid, i)
  {
    seq(|cs|, i requires 0 <= i < |cs| => EuclidRow(cs, depot, euclid, i))
  }

  /** The symmetrical matrix of dimension DIMENSION that `generateDistanceMatrix` fills. */
  function EuclideanMatrix(problem: VrpProblem, euclid: Distance): DistanceMatrix {
    DistanceMatrix(problem.dimensions, true, Apply(map[], Flatten(EuclidRows(problem.clients, problem.depot, euclid))))
  }

  /** `generateDistanceMatrix`: for every client, its distance to every client and then to the
      depot. */
  method GenerateDistanceMatrix(problem: VrpProblem, euclid: Distance) returns (m: DistanceMatrix)
    ensures m == EuclideanMatrix(problem, euclid)
  {
    var cs, depot := problem.clients, problem.depot;
    ghost var rows := EuclidRows(cs, depot, euclid);
    m := EmptyMatrix(problem.dimensions, true);
    assert rows[..0] == [];
    for i := 0 to |cs|
      invariant m.dimensions == problem.dimensions && m.symmetrical
      invariant m.entries == Apply(map[], Flatten(rows[..i]))
    {
      m := GenerateRow(cs, depot, euclid, i, m, Flatten(rows[..i]));
      assert rows[..i + 1][..i] == rows[..i];
    }
    assert rows[..|cs|] == rows;
  }

  /** One iteration of the outer loop of `generateDistanceMatrix`, on a matrix holding the
      effect of the writes `prefix`. */
  method GenerateRow(cs: seq<Client>, depot: Depot, euclid: Distance, i: int, m: DistanceMatrix, ghost prefix: seq<Write>)
    returns (r: DistanceMatrix)
    requires 0 <= i < |cs| && m.entries == Apply(map[], prefix)
    ensures r.dimensions == m.dimensions && r.symmetrical == m.symmetrical
    ensures r.entries == Apply(map[], prefix + EuclidRow(cs, depot, euclid, i))
  {
    ghost var row := EuclidRow(cs, depot, euclid, i);
    r := m;
    assert prefix + row[..0] == prefix;
    for j := 0 to |cs|
      invariant r.dimensions == m.dimensions && r.symmetrical == m.symmetrical
      invariant r.entries == Apply(map[], prefix + row[..j])
    {
      var d := if cs[i].id != cs[j].id then euclid(cs[i].location, cs[j].location) else 0;
      r := SetDistance(r, cs[i].id, cs[j].id, d);
      WriteStep(prefix, row, j);
    }
    r := SetDistance(r, cs[i].id, depot.id, euclid(cs[i].location, depot.location));
    WriteStep(prefix, row, |cs|);
    assert row[..|cs| + 1] == row;
  }

  /** One more write of a row. */
  lemma WriteStep(prefix: seq<Write>, row: seq<Write>, j: int)
    requires 0 <= j < |row|
    ensures Apply(map[], prefix + row[..j + 1]) == Apply(map[], prefix + row[..j])[(row[j].from, row[j].to) := row[j].value]
  {
    assert prefix + row[..j + 1] == (prefix + row[..j]) + [row[j]];
    ApplySnoc(map[], prefix + row[..j], row[j]);
  }

  /** No client has the depot's id. */
  predicate DepotIdFree(cs: seq<Client>, depot: Depot) {
    forall p :: 0 <= p < |cs| ==> cs[p].id != depot.id
  }

  /** A write of `generateDistanceMatrix` comes from some row: a client pair or a client and
      the depot. */
  lemma EuclidWriteFrom(cs: seq<Client>, depot: Depot, euclid: Distance, w: Write)
    requires w in Flatten(EuclidRows(cs, depot, euclid))
    ensures exists i :: 0 <= i < |cs| && w in EuclidRow(cs, depot, euclid, i)
  {
    FlattenFrom(EuclidRows(cs, depot, euclid), w);
  }

  /** Under distinct ids, the pair of clients `a` and `b` holds their Euclidean distance, or 0
      when `a` is `b`. */
  lemma EuclideanClientEntry(cs: seq<Client>, depot: Depot, euclid: Distance, a: int, b: int)
    requires DistinctIds(cs) && DepotIdFree(cs, depot) && 0 <= a < |cs| && 0 <= b < |cs|
    ensures var e := Apply(map[], Flatten(EuclidRows(cs, depot, euclid)));
      (cs[a].id, cs[b].id) in e &&
      e[(cs[a].id, cs[b].id)] == if a != b then euclid(cs[a].location, cs[b].location) else 0
  {
    var ws, k := Flatten(EuclidRows(cs, depot, euclid)), (cs[a].id, cs[b].id);
    var v := ClientPairWrite(cs, euclid, a, b).value;
    forall w | w in ws && (w.from, w.to) == k
      ensures w.value == v
    {
      EuclidWriteFrom(cs, depot, euclid, w);
      var i :| 0 <= i < |cs| && w in EuclidRow(cs, depot, euclid, i);
      var j :| 0 <= j < |cs| + 1 && EuclidRow(cs, depot, euclid, i)[j] == w;
      assert j < |cs|;
    }
    FlattenHas(EuclidRows(cs, depot, euclid), a, ClientPairWrite(cs, euclid, a, b));
    assert Writes(ws, k);
    ApplyValue(map[], ws, k, v);
  }

  /** Under distinct ids, the pair of client `a` and the depot holds their Euclidean distance. */
  lemma EuclideanDepotEntry(cs: seq<Client>, depot: Depot, euclid: Distance, a: int)
    requires DistinctIds(cs) && DepotIdFree(cs, depot) && 0 <= a < |cs|
    ensures var e := Apply(map[], Flatten(EuclidRows(cs, depot, euclid)));
      (cs[a].id, depot.id) in e && e[(cs[a].id, depot.id)] == euclid(cs[a].location, depot.location)
  {
    var ws, k := Flatten(EuclidRows(cs, depot, euclid)), (cs[a].id, depot.id);
    var v := ClientDepotWrite(cs, depot, euclid, a).value;
    forall w | w in ws && (w.from, w.to) == k
      ensures w.value == v
    {
      EuclidWriteFrom(cs, depot, euclid, w);
      var i :| 0 <= i < |cs| && w in EuclidRow(cs, depot, euclid, i);
      var j :| 0 <= j < |cs| + 1 && EuclidRow(cs, depot, euclid, i)[j] == w;
      assert j == |cs|;
    }
    FlattenHas(EuclidRows(cs, depot, euclid), a, ClientDepotWrite(cs, depot, euclid, a));
    assert Writes(ws, k);
    ApplyValue(map[], ws, k, v);
  }

  /** A pair from a client to a client or to the depot. */
  predicate EuclideanKey(cs: seq<Client>, depot: Depot, k: (int, int)) {
    exists a :: 0 <= a < |cs| && k.0 == cs[a].id && (k.1 == depot.id || exists b :: 0 <= b < |cs| && k.1 == cs[b].id)
  }

  /** Every stored pair starts at a client and ends at a client or at the depot. */
  lemma EuclideanKeys(cs: seq<Client>, depot: Depot, euclid: Distance, k: (int, int))
    requires k in Apply(map[], Flatten(EuclidRows(cs, depot, euclid)))
    ensures EuclideanKey(cs, depot, k)
  {
    var ws := Flatten(EuclidRows(cs, depot, euclid));
    ApplyDomain(map[], ws, k);
    var w :| w in ws && (w.from, w.to) == k;
    EuclidWriteFrom(cs, depot, euclid, w);
    var i :| 0 <= i < |cs| && w in EuclidRow(cs, depot, euclid, i);
    var j :| 0 <= j < |cs| + 1 && EuclidRow(cs, depot, euclid, i)[j] == w;
    if j < |cs| {
      assert k.1 == cs[j].id;
    }
  }

  /** The generated matrix: symmetrical, of dimension DIMENSION, holding every client's
      distance to every other client, 0 to itself and its distance to the depot, and nothing
      else. */
  lemma EuclideanMatrixEntries(problem: VrpProblem, euclid: Distance)
    requires DistinctIds(problem.clients) && DepotIdFree(problem.clients, problem.depot)
    ensures var m, cs, depot := EuclideanMatrix(problem, euclid), problem.clients, problem.depot;
      && m.symmetrical && m.dimensions == problem.dimensions
      && (forall a, b :: 0 <= a < |cs| && 0 <= b < |cs| ==>
            (cs[a].id, cs[b].id) in m.entries &&
            m.entries[(cs[a].id, cs[b].id)] == if a != b then euclid(cs[a].location, cs[b].location) else 0)
      && (forall a :: 0 <= a < |cs| ==>
            (cs[a].id, depot.id) in m.entries && m.entries[(cs[a].id, depot.id)] == euclid(cs[a].location, depot.location))
      && (forall k :: k in m.entries ==> EuclideanKey(cs, depot, k))
  {
    var cs, depot := problem.clients, problem.depot;
    forall a, b | 0 <= a < |cs| && 0 <= b < |cs|
      ensures var e := Apply(map[], Flatten(EuclidRows(cs, depot, euclid)));
        (cs[a].id, cs[b].id) in e && e[(cs[a].id, cs[b].id)] == if a != b then euclid(cs[a].location, cs[b].location) else 0
    {
      EuclideanClientEntry(cs, depot, euclid, a, b);
    }
    forall a | 0 <= a < |cs|
      ensures var e := Apply(map[], Flatten(EuclidRows(cs, depot, euclid)));
        (cs[a].id, depot.id) in e && e[(cs[a].id, depot.id)] == euclid(cs[a].location, depot.location)
    {
      EuclideanDepotEntry(cs, depot, euclid, a);
    }
    forall k | k in Apply(map[], Flatten(EuclidRows(cs, depot, euclid)))
      ensures EuclideanKey(cs, depot, k)
    {
      EuclideanKeys(cs, depot, euclid, k);
    }
  }

  // ---------------------------------------------------------------------------------------
  // convert

  /** `convert`: a Euclidean instance first gets its matrix generated and stored back into the
      problem, an explicit one keeps its stored matrix, any other metric is refused; then the
      graph is built from the problem's matrix. The problem as it stands afterwards is returned
      next to the result. */
  method Convert(problem: VrpProblem, lookup: Lookup, euclid: Distance)
    returns (updated: VrpProblem, r: Result<RoutedGraph, GraphError>)
    ensures problem.metric == Unknown ==> updated == problem && r == Err(IllegalArgument)
    ensures problem.metric == Explicit ==> updated == problem && r == ExplicitGraph(problem, lookup)
    ensures problem.metric == Euclidean ==>
      updated == problem.(distanceMatrix := Some(EuclideanMatrix(problem, euclid))) &&
      r == ExplicitGraph(updated, lookup)
  {
    updated := problem;
    if problem.metric == Euclidean {
      var m := GenerateDistanceMatrix(problem, euclid);
      updated := problem.(distanceMatrix := Some(m));
    } else if problem.metric != Explicit {
      return updated, Err(IllegalArgument);
    }
    r := ConvertExplicit(updated, lookup);
  }

  /** A converted graph is made of the placed vertex array and the edges over it. */
  lemma ExplicitGraphParts(problem: VrpProblem, lookup: Lookup)
    requires ExplicitGraph(problem, lookup).Ok?
    ensures problem.dimensions >= 1 && SlotsInRange(problem.dimensions, problem.clients)
    ensures var g, slots := ExplicitGraph(problem, lookup).value, Placed(problem.dimensions, problem.depot, problem.clients);
      && EdgesOf(slots, problem.distanceMatrix, lookup).Ok?
      && g.edges == EdgesOf(slots, problem.distanceMatrix, lookup).value
      && g.root == slots[0].value
      && g.vertices == Vertices(problem.depot, problem.clients)
  {
  }

  /** The edge of a converted graph for the ordered pair (i, j) of different slots. */
  lemma ExplicitEdgeAt(problem: VrpProblem, lookup: Lookup, i: int, j: int)
    requires ExplicitGraph(problem, lookup).Ok?
    requires 0 <= i < problem.dimensions && 0 <= j < problem.dimensions && i != j
    ensures problem.dimensions >= 1 && SlotsInRange(problem.dimensions, problem.clients)
    ensures var g, slots, k := ExplicitGraph(problem, lookup).value, Placed(problem.dimensions, problem.depot, problem.clients), Position(problem.dimensions, i, j);
      && 0 <= k < |g.edges| && problem.distanceMatrix.Some? && slots[i].Some? && slots[j].Some?
      && g.edges[k] == Edge(slots[i].value, slots[j].value, lookup(problem.distanceMatrix.value, slots[i].value.id, slots[j].value.id))
  {
    ExplicitGraphParts(problem, lookup);
    EdgesOfAt(Placed(problem.dimensions, problem.depot, problem.clients), problem.distanceMatrix, lookup, problem.dimensions, i, j);
  }

  /** A numbered instance: DIMENSION counts the depot and the clients, and the clients carry
      ids 2, 3, ... in order, as the parser numbers an explicit instance. */
  predicate Numbered(problem: VrpProblem) {
    && problem.dimensions == |problem.clients| + 1 < 0x8000_0000
    && forall p :: 0 <= p < |problem.clients| ==> problem.clients[p].id == p + 2
  }

  /** A numbered instance with a matrix converts, rooted at the depot, with an edge for every
      ordered pair of different vertices. */
  lemma NumberedInstanceGraph(problem: VrpProblem, lookup: Lookup)
    requires Numbered(problem) && problem.distanceMatrix.Some?
    ensures ExplicitGraph(problem, lookup).Ok?
    ensures var g, d := ExplicitGraph(problem, lookup).value, problem.dimensions;
      g.root == DepotVertex(problem.depot) && |g.edges| == d * (d - 1)
  {
    var d, cs := problem.dimensions, problem.clients;
    NumberedSlots(problem);
    forall x | 1 <= x < d
      ensures Claimed(cs, x)
    {
      assert Slot(cs[x - 1]) == x;
    }
    ExplicitGraphSucceeds(problem, lookup);
    ExplicitGraphParts(problem, lookup);
    if d >= 2 {
      EdgesOfCount(Placed(d, problem.depot, cs), problem.distanceMatrix, lookup);
    }
  }

  /** Slot `x` of a numbered instance: the depot at 0, client x - 1 elsewhere. */
  lemma NumberedSlot(problem: VrpProblem, x: int)
    requires Numbered(problem) && 0 <= x < problem.dimensions
    ensures SlotsInRange(problem.dimensions, problem.clients)
    ensures Placed(problem.dimensions, problem.depot, problem.clients)[x] ==
      if x == 0 then Some(DepotVertex(problem.depot)) else Some(ClientVertex(problem.clients[x - 1]))
  {
    NumberedSlots(problem);
  }

  /** The vertex array of a numbered instance: the depot, then the clients in order. */
  lemma NumberedSlots(problem: VrpProblem)
    requires Numbered(problem)
    ensures SlotsInRange(problem.dimensions, problem.clients)
    ensures var slots := Placed(problem.dimensions, problem.depot, problem.clients);
      forall x :: 0 <= x < problem.dimensions ==>
        slots[x] == if x == 0 then Some(DepotVertex(problem.depot)) else Some(ClientVertex(problem.clients[x - 1]))
  {
    var d, cs := problem.dimensions, problem.clients;
    assert forall p :: 0 <= p < |cs| ==> Slot(cs[p]) == p + 1;
    forall x | 0 <= x < d
      ensures Placed(d, problem.depot, cs)[x] ==
        if x == 0 then Some(DepotVertex(problem.depot)) else Some(ClientVertex(cs[x - 1]))
    {
      if x == 0 {
        PlacedUnclaimed(d, problem.depot, cs, 0);
      } else {
        PlacedClient(d, problem.depot, cs, x - 1);
      }
    }
  }
}
