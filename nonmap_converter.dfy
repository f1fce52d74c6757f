/** `NonMapProblemToGraphConverter`: turns a problem into a location graph whose vertices are
    the depot's and the clients' locations and whose edges are requested one by one, with an
    explicit weight read from the distance matrix or as a Euclidean edge.

    A location is identified by its position in the location list (0 for the depot, `p + 1`
    for client `p`): the source compares locations by reference, and the list holds one
    location object per entry. */
module NonMapConversion {
  import opened Outcomes
  import opened Vrp
  import Sequences
  import GraphConversion

  /** One `addExplicitEdge(from, to, distance)` or `addEuclideanEdge(from, to)` call, the
      locations given by their positions in the location list. */
  datatype EdgeRequest =
    | ExplicitEdge(from: nat, to: nat, distance: int)
    | EuclideanEdge(from: nat, to: nat)

  /** `LocationGraph`: the locations it was built over and the edge requests it received. */
  class LocationGraph {
    var locations: seq<Location>
    var requests: seq<EdgeRequest>

    constructor (locations: seq<Location>)
      ensures this.locations == locations && requests == []
    {
      this.locations := locations;
      requests := [];
    }

    method AddExplicitEdge(from: nat, to: nat, distance: int)
      modifies this
      ensures locations == old(locations)
      ensures requests == old(requests) + [ExplicitEdge(from, to, distance)]
    {
      requests := requests + [ExplicitEdge(from, to, distance)];
    }

    method AddEuclideanEdge(from: nat, to: nat)
      modifies this
      ensures locations == old(locations)
      ensures requests == old(requests) + [EuclideanEdge(from, to)]
    {
      requests := requests + [EuclideanEdge(from, to)];
    }
  }

  /** `ProblemGraph`: the problem together with the graph built for it. */
  datatype ProblemGraph = ProblemGraph(problem: VrpProblem, graph: LocationGraph)

  // ---------------------------------------------------------------------------------------
  // The location list

  /** The clients' locations in client order. */
  function ClientLocations(cs: seq<Client>): seq<Location> {
    if cs == [] then [] else ClientLocations(cs[..|cs| - 1]) + [cs[|cs| - 1].location]
  }

  /** The location list: the depot's location, then the clients' in client order. */
  function LocationList(problem: VrpProblem): seq<Location> {
    [problem.depot.location] + ClientLocations(problem.clients)
  }

  /** Client `p`'s location sits at position `p` of the clients' locations. */
  lemma {:induction false} ClientLocationsAt(cs: seq<Client>)
    ensures |ClientLocations(cs)| == |cs|
    ensures forall p :: 0 <= p < |cs| ==> ClientLocations(cs)[p] == cs[p].location
  {
    if cs != [] {
      ClientLocationsAt(cs[..|cs| - 1]);
    }
  }

  /** The location list has the depot first and client `p` at position `p + 1`. */
  lemma LocationListOrder(problem: VrpProblem)
    ensures |LocationList(problem)| == |problem.clients| + 1
    ensures LocationList(problem)[0] == problem.depot.location
    ensures forall p :: 0 <= p < |problem.clients| ==> LocationList(problem)[p + 1] == problem.clients[p].location
  {
    ClientLocationsAt(problem.clients);
  }

  /** The location list built client by client. */
  method BuildLocations(problem: VrpProblem) returns (locations: seq<Location>)
    ensures locations == LocationList(problem)
  {
    locations := [problem.depot.location];
    var cs := problem.clients;
    for i := 0 to |cs|
      invariant locations == [problem.depot.location] + ClientLocations(cs[..i])
    {
      assert cs[..i + 1][..i] == cs[..i];
      locations := locations + [cs[i].location];
    }
    assert cs[..|cs|] == cs;
  }

  // ---------------------------------------------------------------------------------------
  // Explicit edges

  /** The client-to-client requests for client `p` as source, over the targets `cs[..q]`:
      one per target whose id differs from `p`'s. */
  function PairRequests(cs: seq<Client>, m: DistanceMatrix, lookup: Lookup, p: int, q: int): seq<EdgeRequest>
    requires 0 <= p < |cs| && 0 <= q <= |cs|
  {
    if q == 0 then []
    else
      PairRequests(cs, m, lookup, p, q - 1) + PairCell(cs, m, lookup, p, q - 1)
  }

  /** The request from client `p` to client `q`, when their ids differ. */
  function PairCell(cs: seq<Client>, m: DistanceMatrix, lookup: Lookup, p: int, q: int): seq<EdgeRequest>
    requires 0 <= p < |cs| && 0 <= q < |cs|
  {
    if cs[p].id != cs[q].id then [ExplicitEdge(p + 1, q + 1, lookup(m, cs[p].id, cs[q].id))] else []
  }

  /** Everything requested for client `p` as source: the client targets, then the edge to
      the depot and the edge from the depot. */
  function ClientRequests(cs: seq<Client>, depotId: int, m: DistanceMatrix, lookup: Lookup, p: int): seq<EdgeRequest>
    requires 0 <= p < |cs|
  {
    PairRequests(cs, m, lookup, p, |cs|) + DepotRequests(cs, depotId, m, lookup, p)
  }

  /** The edge from client `p` to the depot, then the edge from the depot to it. */
  function DepotRequests(cs: seq<Client>, depotId: int, m: DistanceMatrix, lookup: Lookup, p: int): seq<EdgeRequest>
    requires 0 <= p < |cs|
  {
    [ExplicitEdge(p + 1, 0, lookup(m, cs[p].id, depotId)), ExplicitEdge(0, p + 1, lookup(m, depotId, cs[p].id))]
  }

  /** The requests for the first `k` clients as sources. */
  function ExplicitRows(cs: seq<Client>, depotId: int, m: DistanceMatrix, lookup: Lookup, k: int): seq<EdgeRequest>
    requires 0 <= k <= |cs|
  {
    if k == 0 then [] else ExplicitRows(cs, depotId, m, lookup, k - 1) + ClientRequests(cs, depotId, m, lookup, k - 1)
  }

  /** `addDistancesFromDistanceMatrix`: the explicit requests, or the `NullPointerException`
      of the first matrix lookup when there is a client but no matrix. */
  function ExplicitRequests(problem: VrpProblem, lookup: Lookup): Result<seq<EdgeRequest>, GraphConversion.GraphError> {
    var cs := problem.clients;
    if cs == [] then Ok([])
    else if problem.distanceMatrix.None? then Err(GraphConversion.NullPointer)
    else Ok(ExplicitRows(cs, problem.depot.id, problem.distanceMatrix.value, lookup, |cs|))
  }

  /** `r` is an explicit request the converter makes: between two clients with different ids,
      or between a client and the depot in either direction, weighted by the matrix lookup
      of the two ids. */
  predicate ExplicitRequested(cs: seq<Client>, depotId: int, m: DistanceMatrix, lookup: Lookup, r: EdgeRequest) {
    r.ExplicitEdge? && r.from <= |cs| && r.to <= |cs| &&
    if r.from == 0 then
      1 <= r.to && r.distance == lookup(m, depotId, cs[r.to - 1].id)
    else if r.to == 0 then
      r.distance == lookup(m, cs[r.from - 1].id, depotId)
    else
      cs[r.from - 1].id != cs[r.to - 1].id && r.distance == lookup(m, cs[r.from - 1].id, cs[r.to - 1].id)
  }

  /** The client-to-client requests of client `p` go to exactly the targets before `q` whose
      id differs from `p`'s. */
  lemma {:induction false} PairRequestsMembers(cs: seq<Client>, m: DistanceMatrix, lookup: Lookup, p: int, q: int, r: EdgeRequest)
    requires 0 <= p < |cs| && 0 <= q <= |cs|
    ensures r in PairRequests(cs, m, lookup, p, q) <==>
      r.ExplicitEdge? && r.from == p + 1 && 1 <= r.to <= q && cs[p].id != cs[r.to - 1].id
      && r.distance == lookup(m, cs[p].id, cs[r.to - 1].id)
  {
    if q > 0 {
      PairRequestsMembers(cs, m, lookup, p, q - 1, r);
    }
  }

  /** The requests for the first `k` sources are exactly the explicit requests whose
      client end (the source, or the target for an edge from the depot) is among them. */
  lemma {:induction false} ExplicitRowsMembers(cs: seq<Client>, depotId: int, m: DistanceMatrix, lookup: Lookup, k: int, r: EdgeRequest)
    requires 0 <= k <= |cs|
    ensures r in ExplicitRows(cs, depotId, m, lookup, k) <==>
      ExplicitRequested(cs, depotId, m, lookup, r) && ClientEnd(r) <= k
  {
    if k == 0 {
      ClientEndPositive(cs, depotId, m, lookup, r);
      assert ExplicitRows(cs, depotId, m, lookup, 0) == [];
    } else {
      ExplicitRowsMembers(cs, depotId, m, lookup, k - 1, r);
      ExplicitRowsStep(cs, depotId, m, lookup, k, r);
    }
  }

  /** The requests for the first `k` sources are those for the first `k - 1` and the explicit
      requests whose client end is `k`. */
  lemma ExplicitRowsStep(cs: seq<Client>, depotId: int, m: DistanceMatrix, lookup: Lookup, k: int, r: EdgeRequest)
    requires 0 < k <= |cs|
    ensures r in ExplicitRows(cs, depotId, m, lookup, k) <==>
      r in ExplicitRows(cs, depotId, m, lookup, k - 1) || (ExplicitRequested(cs, depotId, m, lookup, r) && ClientEnd(r) == k)
  {
    RowMembers(cs, depotId, m, lookup, k - 1, r);
    assert ExplicitRows(cs, depotId, m, lookup, k) == ExplicitRows(cs, depotId, m, lookup, k - 1) + ClientRequests(cs, depotId, m, lookup, k - 1);
  }

  /** The client end of a request: its target when it leaves the depot, its source otherwise. */
  function ClientEnd(r: EdgeRequest): int {
    if r.from == 0 then r.to else r.from
  }

  /** Every explicit request has a client end, numbered from 1. */
  lemma ClientEndPositive(cs: seq<Client>, depotId: int, m: DistanceMatrix, lookup: Lookup, r: EdgeRequest)
    ensures ExplicitRequested(cs, depotId, m, lookup, r) ==> 1 <= ClientEnd(r) <= |cs|
  {
  }


  /** The requests of source `p` are the explicit requests whose client end is `p`'s. */
  lemma RowMembers(cs: seq<Client>, depotId: int, m: DistanceMatrix, lookup: Lookup, p: int, r: EdgeRequest)
    requires 0 <= p < |cs|
    ensures r in ClientRequests(cs, depotId, m, lookup, p)
      <==> ExplicitRequested(cs, depotId, m, lookup, r) && ClientEnd(r) == p + 1
  {
    PairRequestsMembers(cs, m, lookup, p, |cs|, r);
  }

  /** With a matrix present, the explicit requests are exactly: one per ordered pair of
      clients with different ids, one from each client to the depot and one from the depot
      to each client, each weighted by the lookup; none joins a location to itself. */
  lemma ExplicitRequestsMembers(problem: VrpProblem, lookup: Lookup, r: EdgeRequest)
    requires problem.clients != [] && problem.distanceMatrix.Some?
    ensures ExplicitRequests(problem, lookup).Ok?
    ensures r in ExplicitRequests(problem, lookup).value <==>
      ExplicitRequested(problem.clients, problem.depot.id, problem.distanceMatrix.value, lookup, r)
    ensures r in ExplicitRequests(problem, lookup).value ==> r.from != r.to
  {
    ExplicitRowsMembers(problem.clients, problem.depot.id, problem.distanceMatrix.value, lookup, |problem.clients|, r);
  }

  /** The explicit requests fail exactly when there is a client and no matrix. */
  lemma ExplicitRequestsFail(problem: VrpProblem, lookup: Lookup)
    ensures ExplicitRequests(problem, lookup).Err? <==> problem.clients != [] && problem.distanceMatrix.None?
    ensures ExplicitRequests(problem, lookup).Err? ==> ExplicitRequests(problem, lookup).error == GraphConversion.NullPointer
    ensures problem.clients == [] ==> ExplicitRequests(problem, lookup) == Ok([])
  {
  }

  /** With distinct ids, client `p` requests an edge to every other client. */
  lemma {:induction false} PairRequestsCount(cs: seq<Client>, m: DistanceMatrix, lookup: Lookup, p: int, q: int)
    requires DistinctIds(cs) && 0 <= p < |cs| && 0 <= q <= |cs|
    ensures |PairRequests(cs, m, lookup, p, q)| == if p < q then q - 1 else q
  {
    if q > 0 {
      PairRequestsCount(cs, m, lookup, p, q - 1);
      assert cs[p].id != cs[q - 1].id <==> p != q - 1;
    }
  }

  /** With distinct ids, each source contributes its `n - 1` client targets and two depot edges. */
  lemma {:induction false} ExplicitRowsCount(cs: seq<Client>, depotId: int, m: DistanceMatrix, lookup: Lookup, k: int)
    requires DistinctIds(cs) && 0 <= k <= |cs|
    ensures |ExplicitRows(cs, depotId, m, lookup, k)| == GraphConversion.Times(k, |cs| + 1)
  {
    if k > 0 {
      ExplicitRowsCount(cs, depotId, m, lookup, k - 1);
      PairRequestsCount(cs, m, lookup, k - 1, |cs|);
      assert |ClientRequests(cs, depotId, m, lookup, k - 1)| == |cs| + 1;
    }
  }

  /** With `k` clients of distinct ids and a matrix, exactly `k * (k - 1) + 2 * k` explicit
      edges are requested. */
  lemma ExplicitRequestsCount(problem: VrpProblem, lookup: Lookup)
    requires DistinctIds(problem.clients) && problem.distanceMatrix.Some?
    ensures ExplicitRequests(problem, lookup).Ok?
    ensures var k := |problem.clients|; |ExplicitRequests(problem, lookup).value| == k * (k - 1) + 2 * k
  {
    var k := |problem.clients|;
    if k > 0 {
      ExplicitRowsCount(problem.clients, problem.depot.id, problem.distanceMatrix.value, lookup, k);
      GraphConversion.TimesIsProduct(k, k + 1);
      assert k * (k + 1) == k * (k - 1) + 2 * k;
    }
  }

  /** One pass of the outer loop: the requests for client `p` as source. */
  method AddClientEdges(graph: LocationGraph, cs: seq<Client>, depotId: int, m: DistanceMatrix, lookup: Lookup, p: int)
    requires 0 <= p < |cs|
    modifies graph
    ensures graph.locations == old(graph.locations)
    ensures graph.requests == old(graph.requests) + ClientRequests(cs, depotId, m, lookup, p)
  {
    var from := cs[p];
    for q := 0 to |cs|
      invariant graph.locations == old(graph.locations)
      invariant graph.requests == old(graph.requests) + PairRequests(cs, m, lookup, p, q)
    {
      var to := cs[q];
      ghost var before := graph.requests;
      if from.id != to.id {
        graph.AddExplicitEdge(p + 1, q + 1, lookup(m, from.id, to.id));
      } else {
        assert graph.requests == before + [];
      }
      PairStep(old(graph.requests), before, graph.requests, cs, m, lookup, p, q);
    }
    ghost var pairs := graph.requests;
    graph.AddExplicitEdge(p + 1, 0, lookup(m, from.id, depotId));
    graph.AddExplicitEdge(0, p + 1, lookup(m, depotId, from.id));
    DepotStep(old(graph.requests), pairs, graph.requests, cs, depotId, m, lookup, p);
  }

  /** Appending the cell of target `q` extends the requests of source `p` to the targets `cs[..q + 1]`. */
  lemma PairStep(a: seq<EdgeRequest>, before: seq<EdgeRequest>, after: seq<EdgeRequest>,
                 cs: seq<Client>, m: DistanceMatrix, lookup: Lookup, p: int, q: int)
    requires 0 <= p < |cs| && 0 <= q < |cs|
    requires before == a + PairRequests(cs, m, lookup, p, q)
    requires after == before + PairCell(cs, m, lookup, p, q)
    ensures after == a + PairRequests(cs, m, lookup, p, q + 1)
  {
    Sequences.Associative(a, PairRequests(cs, m, lookup, p, q), PairCell(cs, m, lookup, p, q));
  }

  /** Appending the two depot edges completes the requests of source `p`. */
  lemma DepotStep(a: seq<EdgeRequest>, pairs: seq<EdgeRequest>, after: seq<EdgeRequest>,
                  cs: seq<Client>, depotId: int, m: DistanceMatrix, lookup: Lookup, p: int)
    requires 0 <= p < |cs|
    requires pairs == a + PairRequests(cs, m, lookup, p, |cs|)
    requires after == pairs + [ExplicitEdge(p + 1, 0, lookup(m, cs[p].id, depotId))]
      + [ExplicitEdge(0, p + 1, lookup(m, depotId, cs[p].id))]
    ensures after == a + ClientRequests(cs, depotId, m, lookup, p)
  {
    var out := ExplicitEdge(p + 1, 0, lookup(m, cs[p].id, depotId));
    var into := ExplicitEdge(0, p + 1, lookup(m, depotId, cs[p].id));
    Sequences.Associative(a, PairRequests(cs, m, lookup, p, |cs|), [out, into]);
    assert [out] + [into] == [out, into];
  }

  /** `addDistancesFromDistanceMatrix`: requests the explicit edges, or reports the
      `NullPointerException` of a missing matrix. */
  method AddDistancesFromDistanceMatrix(graph: LocationGraph, problem: VrpProblem, lookup: Lookup)
    returns (failure: Option<GraphConversion.GraphError>)
    modifies graph
    ensures graph.locations == old(graph.locations)
    ensures ExplicitRequests(problem, lookup).Err? ==> failure == Some(ExplicitRequests(problem, lookup).error)
    ensures ExplicitRequests(problem, lookup).Ok? ==>
      failure == None && graph.requests == old(graph.requests) + ExplicitRequests(problem, lookup).value
  {
    var cs := problem.clients;
    var depotId := problem.depot.id;
    for i := 0 to |cs|
      invariant graph.locations == old(graph.locations)
      invariant i == 0 ==> graph.requests == old(graph.requests)
      invariant i > 0 ==> problem.distanceMatrix.Some?
      invariant i > 0 ==>
        graph.requests == old(graph.requests) + ExplicitRows(cs, depotId, problem.distanceMatrix.value, lookup, i)
    {
      if problem.distanceMatrix.None? {
        return Some(GraphConversion.NullPointer);
      }
      var m := problem.distanceMatrix.value;
      ghost var before := graph.requests;
      AddClientEdges(graph, cs, depotId, m, lookup, i);
      assert before == old(graph.requests) + ExplicitRows(cs, depotId, m, lookup, i);
      Sequences.Associative(old(graph.requests), ExplicitRows(cs, depotId, m, lookup, i), ClientRequests(cs, depotId, m, lookup, i));
    }
    failure := None;
  }

  // ---------------------------------------------------------------------------------------
  // Euclidean edges

  /** The Euclidean requests from position `i` to the positions before `j` other than `i`. */
  function EuclideanRow(i: nat, j: nat): seq<EdgeRequest> {
    if j == 0 then [] else EuclideanRow(i, j - 1) + EuclideanCell(i, j - 1)
  }

  /** The request from position `i` to position `j`, when they differ. */
  function EuclideanCell(i: nat, j: nat): seq<EdgeRequest> {
    if i != j then [EuclideanEdge(i, j)] else []
  }

  /** The Euclidean requests from the first `k` of `n` positions. */
  function EuclideanRows(n: nat, k: nat): seq<EdgeRequest> {
    if k == 0 then [] else EuclideanRows(n, k - 1) + EuclideanRow(k - 1, n)
  }

  /** Row `i` holds only Euclidean requests from `i`, to exactly the positions before `j`
      other than `i`. */
  lemma {:induction false} EuclideanRowMembers(i: nat, j: nat, r: EdgeRequest)
    ensures r in EuclideanRow(i, j) ==> r.EuclideanEdge? && r.from == i
    ensures r.EuclideanEdge? && r.from == i ==> (r in EuclideanRow(i, j) <==> r.to < j && r.to != i)
  {
    if j > 0 {
      EuclideanRowMembers(i, j - 1, r);
    }
  }

  /** Row `i` holds one request per position before `j` other than `i`. */
  lemma {:induction false} EuclideanRowCount(i: nat, j: nat)
    ensures |EuclideanRow(i, j)| == if i < j then j - 1 else j
  {
    if j > 0 {
      EuclideanRowCount(i, j - 1);
    }
  }

  /** The rows of the first `k` positions request exactly the ordered pairs of distinct
      positions below `n` whose source is below `k`. */
  lemma {:induction false} EuclideanRowsMembers(n: nat, k: nat, r: EdgeRequest)
    requires k <= n
    ensures r in EuclideanRows(n, k) ==> r.EuclideanEdge? && r.from < k
    ensures r.EuclideanEdge? && r.from < k ==> (r in EuclideanRows(n, k) <==> r.to < n && r.from != r.to)
  {
    if k > 0 {
      EuclideanRowsMembers(n, k - 1, r);
      EuclideanRowMembers(k - 1, n, r);
    }
  }

  /** The rows of the first `k` positions hold `n - 1` requests each. */
  lemma {:induction false} EuclideanRowsCount(n: nat, k: nat)
    requires 0 < n && k <= n
    ensures |EuclideanRows(n, k)| == k * (n - 1)
  {
    if k > 0 {
      EuclideanRowsCount(n, k - 1);
      EuclideanRowCount(k - 1, n);
      assert (k - 1) * (n - 1) + (n - 1) == k * (n - 1);
    }
  }

  /** Over `n` locations, the Euclidean requests are exactly the `n * (n - 1)` ordered pairs
      of distinct positions. */
  lemma EuclideanRequests(n: nat, r: EdgeRequest)
    ensures r in EuclideanRows(n, n) <==> r.EuclideanEdge? && r.from < n && r.to < n && r.from != r.to
    ensures |EuclideanRows(n, n)| == n * (n - 1)
  {
    EuclideanRowsMembers(n, n, r);
    if n > 0 {
      EuclideanRowsCount(n, n);
    }
  }

  method AddEuclideanRow(graph: LocationGraph, n: nat, i: nat)
    modifies graph
    ensures graph.locations == old(graph.locations)
    ensures graph.requests == old(graph.requests) + EuclideanRow(i, n)
  {
    for j := 0 to n
      invariant graph.locations == old(graph.locations)
      invariant graph.requests == old(graph.requests) + EuclideanRow(i, j)
    {
      if i != j {
        graph.AddEuclideanEdge(i, j);
      }
    }
  }

  /** `addEuclideanDistances`: one Euclidean request per ordered pair of distinct positions
      of the graph's locations, row by row. */
  method AddEuclideanDistances(graph: LocationGraph)
    modifies graph
    ensures graph.locations == old(graph.locations)
    ensures graph.requests == old(graph.requests) + EuclideanRows(|graph.locations|, |graph.locations|)
  {
    var n := |graph.locations|;
    for i := 0 to n
      invariant graph.locations == old(graph.locations)
      invariant graph.requests == old(graph.requests) + EuclideanRows(n, i)
    {
      ghost var before := graph.requests;
      AddEuclideanRow(graph, n, i);
      Sequences.Associative(old(graph.requests), EuclideanRows(n, i), EuclideanRow(i, n));
    }
  }

  // ---------------------------------------------------------------------------------------
  // Conversion

  /** The requests `convert` makes: explicit ones for an Explicit metric, Euclidean ones over
      the location list for a Euclidean metric, none otherwise. */
  function Requests(problem: VrpProblem, lookup: Lookup): Result<seq<EdgeRequest>, GraphConversion.GraphError> {
    match problem.metric
    case Explicit => ExplicitRequests(problem, lookup)
    case Euclidean => Ok(EuclideanRows(|problem.clients| + 1, |problem.clients| + 1))
    case Unknown => Ok([])
  }

  /** `convert`: the location graph over the location list with the metric's requests. */
  method Convert(problem: VrpProblem, lookup: Lookup) returns (r: Result<ProblemGraph, GraphConversion.GraphError>)
    ensures r.Ok? <==> Requests(problem, lookup).Ok?
    ensures r.Err? ==> r.error == Requests(problem, lookup).error
    ensures r.Ok? ==> fresh(r.value.graph) && r.value.problem == problem
    ensures r.Ok? ==> r.value.graph.locations == LocationList(problem)
    ensures r.Ok? ==> r.value.graph.requests == Requests(problem, lookup).value
  {
    var locations := BuildLocations(problem);
    LocationListOrder(problem);
    var graph := new LocationGraph(locations);
    if problem.metric == Explicit {
      var failure := AddDistancesFromDistanceMatrix(graph, problem, lookup);
      if failure.Some? {
        return Err(failure.value);
      }
    }
    if problem.metric == Euclidean {
      AddEuclideanDistances(graph);
    }
    r := Ok(ProblemGraph(problem, graph));
  }

  /** For a metric other than Explicit and Euclidean, the graph has the locations as vertices
      and no edge requests. */
  lemma OtherMetricNoEdges(problem: VrpProblem, lookup: Lookup)
    requires problem.metric == Unknown
    ensures Requests(problem, lookup) == Ok([])
  {
  }
}
