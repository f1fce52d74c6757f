/** `VrpProblemParser.parseReader`: the loop over the lines of an instance file that
    dispatches each line on the keyword it starts with, lets the data sections read the lines
    that follow them, and builds the problem once the input is exhausted. A line that starts
    with no keyword is skipped, `EOF` included: the source compares `line == "EOF"` by
    reference, so that test never holds and the loop always runs to the end of the input.
    The test `line.trim() == ""` may hold (`trim` can return the interned empty string), but
    its branch only continues, so a blank line is skipped like any line without a keyword. */
module VrpParser {
  import opened Outcomes
  import opened Vrp
  import opened JavaStrings
  import opened VrpHeaders
  import opened TriangleWalk
  import opened MatrixSections
  import opened NodeSections

  /** The local variables of `parseReader`; `None` is a variable still `null`. */
  datatype ParseState = ParseState(
    name: Option<string>,
    bestSolution: int,
    capacity: int,
    dimensions: int,
    distanceMatrix: Option<DistanceMatrix>,
    metric: Metric,
    format: Format,
    locations: Option<seq<Location>>,
    demands: Option<seq<int>>,
    depotIds: Option<seq<int>>)

  /** The variables before the first line. */
  const Initial := ParseState(None, 0, 0, 0, None, Unknown, UnknownFormat, None, None, None)

  const OnlyExplicit := "EDGE_WEIGHT_SECTION is supported only when EDGE_WEIGHT_TYPE is set to EXPLICIT"
  const OneDepot := "Only one depot is supported"
  const DepotDemand := "Cannot set demand to depot"

  // ---------------------------------------------------------------------------------------
  // One line of the loop

  /** `parseNonSymmetricalDistanceMatrix` from line `pos`: the full matrix of `d` rows and the
      position after them. */
  function FullMatrixSection(lines: seq<string>, pos: nat, d: int, number: NumberParser)
    : (r: Result<(DistanceMatrix, nat), ParseError>)
    requires pos <= |lines|
    ensures r.Ok? ==> pos <= r.value.1 <= |lines|
    ensures r.Err? ==> MatrixError(r.error)
  {
    var n := if d > 0 then d else 0;
    var rows := FullRows(SplitEachOnSpaces(lines), pos, n, number);
    if rows.Err? then Err(rows.error) else Ok((DistanceMatrix(d, false, RowsEntries(rows.value)), pos + n))
  }

  /** `parseSymmetricalDistanceMatrix` from line `pos`: the lower triangle of `d` rows and the
      position after it. */
  function TriangleMatrixSection(lines: seq<string>, pos: nat, d: int, number: NumberParser)
    : (r: Result<(DistanceMatrix, nat), ParseError>)
    requires pos <= |lines|
    ensures r.Ok? ==> pos <= r.value.1 <= |lines|
    ensures r.Err? ==> MatrixError(r.error)
  {
    var calls := TriangleLines(SplitEach(lines), pos, d, Start, 0, number);
    TriangleLinesPosition(SplitEach(lines), pos, d, Start, 0, number);
    if calls.Err? then Err(calls.error) else Ok((DistanceMatrix(d, true, Apply(map[], calls.value.0)), calls.value.1))
  }

  /** The `EDGE_WEIGHT_SECTION` branch, its lines starting at `pos`: the metric must already
      be explicit and the format known; the matrix read and the position after it. */
  function EdgeWeightSection(lines: seq<string>, pos: nat, st: ParseState, number: NumberParser)
    : (r: Result<(ParseState, nat), ParseError>)
    requires pos <= |lines|
    ensures r.Ok? ==> pos <= r.value.1 <= |lines|
  {
    if st.metric != Explicit then Err(Parsing(OnlyExplicit))
    else if st.format == UnknownFormat then Err(Parsing("Unknown edge weight format"))
    else
      var m :=
        if st.format == FullMatrix then FullMatrixSection(lines, pos, st.dimensions, number)
        else TriangleMatrixSection(lines, pos, st.dimensions, number);
      if m.Err? then Err(m.error) else Ok((st.(distanceMatrix := Some(m.value.0)), m.value.1))
  }

  /** Whether `line` starts with one of the header keywords `parseReader` tests first. */
  predicate HeaderKeyword(line: string) {
    "NAME" <= line || "COMMENT" <= line || "DIMENSION" <= line || "CAPACITY" <= line ||
    "EDGE_WEIGHT_FORMAT" <= line || "EDGE_WEIGHT_TYPE" <= line
  }

  /** The single-line headers: the variable the keyword names takes the value read. */
  function HeaderLine(line: string, st: ParseState, number: NumberParser): (r: Result<ParseState, ParseError>)
    requires HeaderKeyword(line)
  {
    if "NAME" <= line then
      var v := ParseName(line);
      if v.Err? then Err(v.error) else Ok(st.(name := Some(v.value)))
    else if "COMMENT" <= line then
      var v := ParseBestKnownSolution(line, number);
      if v.Err? then Err(v.error) else Ok(st.(bestSolution := v.value))
    else if "DIMENSION" <= line then
      var v := ParseCount(line);
      if v.Err? then Err(v.error) else Ok(st.(dimensions := v.value))
    else if "CAPACITY" <= line then
      var v := ParseCount(line);
      if v.Err? then Err(v.error) else Ok(st.(capacity := v.value))
    else if "EDGE_WEIGHT_FORMAT" <= line then
      var v := ParseEdgeWeightFormat(line);
      if v.Err? then Err(v.error) else Ok(st.(format := v.value))
    else
      var v := ParseMetrics(line);
      if v.Err? then Err(v.error) else Ok(st.(metric := v.value))
  }

  /** The lines that open a section, the section's lines following from `p + 1`; any other
      line is skipped. */
  function SectionLine(lines: seq<string>, p: nat, st: ParseState, number: NumberParser)
    : (r: Result<(ParseState, nat), ParseError>)
    requires p < |lines|
    ensures r.Ok? ==> p < r.value.1 <= |lines|
  {
    var line := lines[p];
    if "EDGE_WEIGHT_SECTION" <= line then
      EdgeWeightSection(lines, p + 1, st, number)
    else if "NODE_COORD_SECTION" <= line then
      if st.dimensions == 0 then Err(Parsing("Invalid dimensions"))
      else
        var v := LocationsSection(lines, p + 1, st.dimensions, number);
        if v.Err? then Err(v.error) else Ok((st.(locations := Some(v.value)), p + 1 + |v.value|))
    else if "DEMAND_SECTION" <= line then
      if st.dimensions == 0 then Err(Parsing("Invalid dimensions"))
      else
        var v := DemandsSection(lines, p + 1, st.dimensions, number);
        if v.Err? then Err(v.error) else Ok((st.(demands := Some(v.value)), p + 1 + |v.value|))
    else if "DEPOT_SECTION" <= line then
      var v := DepotsFrom(lines, p + 1);
      if v.Err? then Err(v.error) else Ok((st.(depotIds := Some(v.value.0)), v.value.1))
    else
      Ok((st, p + 1))
  }

  /** One pass of the loop of `parseReader` on line `p`: the variables after it and the next
      line to read. The keywords are tried in the order of the source. */
  function ParseLine(lines: seq<string>, p: nat, st: ParseState, number: NumberParser)
    : (r: Result<(ParseState, nat), ParseError>)
    requires p < |lines|
    ensures r.Ok? ==> p < r.value.1 <= |lines|
  {
    if HeaderKeyword(lines[p]) then
      var h := HeaderLine(lines[p], st, number);
      if h.Err? then Err(h.error) else Ok((h.value, p + 1))
    else SectionLine(lines, p, st, number)
  }

  /** The loop of `parseReader` from line `p` to the end of the input. */
  function Scan(lines: seq<string>, p: nat, st: ParseState, number: NumberParser): Result<ParseState, ParseError>
    requires p <= |lines|
    decreases |lines| - p
  {
    if p == |lines| then Ok(st)
    else
      var next := ParseLine(lines, p, st, number);
      if next.Err? then Err(next.error) else Scan(lines, next.value.1, next.value.0, number)
  }

  // ---------------------------------------------------------------------------------------
  // After the loop

  /** The clients of an Explicit instance from location `i` on: location i becomes the client
      with id `i + 1` and the demand of line i + 1, up to location `d - 1`. */
  function ExplicitClients(demands: Option<seq<int>>, locations: seq<Location>, i: nat, d: int): (r: Result<seq<Client>, ParseError>)
    ensures r.Err? ==> r.error == NullPointer || r.error == IndexOutOfBounds
    decreases if i < d then d - i else 0
  {
    if i >= d then Ok([])
    else if demands.None? then Err(NullPointer)
    else if i >= |demands.value| || i >= |locations| then Err(IndexOutOfBounds)
    else
      var rest := ExplicitClients(demands, locations, i + 1, d);
      if rest.Err? then rest else Ok([Client(i + 1, demands.value[i], locations[i])] + rest.value)
  }

  /** The Explicit branch: the depot is location 0 with id 1, the other locations are the
      clients. */
  function ExplicitPlaces(locations: Option<seq<Location>>, demands: Option<seq<int>>, d: int)
    : (r: Result<(Depot, seq<Client>), ParseError>)
    ensures r.Err? ==> r.error == NullPointer || r.error == IndexOutOfBounds
  {
    if locations.None? then Err(NullPointer)
    else if |locations.value| == 0 then Err(IndexOutOfBounds)
    else
      var cs := ExplicitClients(demands, locations.value, 1, d);
      if cs.Err? then Err(cs.error) else Ok((Depot(1, locations.value[0]), cs.value))
  }

  /** `convertDepot`: the depot with id 1 at the location numbered `depotId`. */
  function DepotAt(depotId: int, locations: Option<seq<Location>>): (r: Result<Depot, ParseError>)
    ensures r.Err? ==> r.error == NullPointer || r.error == IndexOutOfBounds
    ensures r.Ok? ==> locations.Some? && 0 <= depotId - 1 < |locations.value| && r.value == Depot(1, locations.value[depotId - 1])
  {
    if locations.None? then Err(NullPointer)
    else if !(0 <= depotId - 1 < |locations.value|) then Err(IndexOutOfBounds)
    else Ok(Depot(1, locations.value[depotId - 1]))
  }

  /** The loop of `convertClients` from index `i`, the next client id being `id`: every
      index but the depot's becomes a client; a positive demand at the depot's index throws. */
  function ClientsFrom(depot: int, demands: seq<int>, locations: seq<Location>, i: nat, id: int)
    : (r: Result<seq<Client>, ParseError>)
    ensures r.Err? ==> r.error == IndexOutOfBounds || r.error == Parsing(DepotDemand)
    decreases |demands| - i
  {
    if i >= |demands| then Ok([])
    else if i == depot then
      if demands[i] > 0 then Err(Parsing(DepotDemand)) else ClientsFrom(depot, demands, locations, i + 1, id)
    else if i >= |locations| then Err(IndexOutOfBounds)
    else
      var rest := ClientsFrom(depot, demands, locations, i + 1, id + 1);
      if rest.Err? then rest else Ok([Client(id, demands[i], locations[i])] + rest.value)
  }

  /** `convertClients`: the clients numbered from 2, skipping the depot's index. */
  function ConvertedClients(depotId: int, demands: Option<seq<int>>, locations: seq<Location>)
    : (r: Result<seq<Client>, ParseError>)
    ensures r.Err? ==> r.error == NullPointer || r.error == IndexOutOfBounds || r.error == Parsing(DepotDemand)
  {
    if demands.None? then Err(NullPointer) else ClientsFrom(depotId - 1, demands.value, locations, 0, 2)
  }

  /** The other metrics: `convertDepot` and then `convertClients`. */
  function NumberedPlaces(depotId: int, locations: Option<seq<Location>>, demands: Option<seq<int>>)
    : (r: Result<(Depot, seq<Client>), ParseError>)
    ensures r.Err? ==> r.error == NullPointer || r.error == IndexOutOfBounds || r.error == Parsing(DepotDemand)
  {
    var depot := DepotAt(depotId, locations);
    if depot.Err? then Err(depot.error)
    else
      var cs := ConvertedClients(depotId, demands, locations.value);
      if cs.Err? then Err(cs.error) else Ok((depot.value, cs.value))
  }

  /** The end of `parseReader`: one vehicle with the capacity read, exactly one depot id, and
      the depot and clients placed by the metric. */
  function Assemble(st: ParseState): Result<VrpProblem, ParseError> {
    if st.depotIds.None? then Err(NullPointer)
    else if |st.depotIds.value| != 1 then Err(Parsing(OneDepot))
    else
      var placed :=
        if st.metric == Explicit then ExplicitPlaces(st.locations, st.demands, st.dimensions)
        else NumberedPlaces(st.depotIds.value[0], st.locations, st.demands);
      if placed.Err? then Err(placed.error)
      else
        Ok(VrpProblem(st.name, st.bestSolution, st.dimensions, st.metric, placed.value.1,
                      [Vehicle(1, st.capacity)], placed.value.0, st.distanceMatrix))
  }

  /** What `parseReader` returns or throws for the whole input. */
  function ParseLines(lines: seq<string>, number: NumberParser): Result<VrpProblem, ParseError> {
    var st := Scan(lines, 0, Initial, number);
    if st.Err? then Err(st.error) else Assemble(st.value)
  }

  // ---------------------------------------------------------------------------------------
  // What the loop and the conversion promise

  /** Whether `line` starts with any keyword `parseReader` acts on. */
  predicate Keyword(line: string) {
    HeaderKeyword(line) || "EDGE_WEIGHT_SECTION" <= line || "NODE_COORD_SECTION" <= line ||
    "DEMAND_SECTION" <= line || "DEPOT_SECTION" <= line
  }

  /** A line that starts with no keyword changes nothing and the loop goes on with the next
      line; `EOF` and blank lines are such lines. */
  lemma OtherLineSkipped(lines: seq<string>, p: nat, st: ParseState, number: NumberParser)
    requires p < |lines| && !Keyword(lines[p])
    ensures ParseLine(lines, p, st, number) == Ok((st, p + 1))
  {
  }

  /** The line `EOF` does not end the loop: it starts with no keyword. */
  lemma {:induction false} EofSkipped(lines: seq<string>, p: nat, st: ParseState, number: NumberParser)
    requires p < |lines| && lines[p] == "EOF"
    ensures ParseLine(lines, p, st, number) == Ok((st, p + 1))
  {
    var line := lines[p];
    assert line[0] == 'E' && line[1] == 'O';
    OtherLineSkipped(lines, p, st, number);
  }

  /** An `EDGE_WEIGHT_SECTION` line is refused with the explicit-only message exactly when the
      metric read so far is not Explicit, and with "Unknown edge weight format" exactly when it
      is Explicit but no known format has been read. */
  lemma EdgeWeightGuards(lines: seq<string>, p: nat, st: ParseState, number: NumberParser)
    requires p < |lines| && "EDGE_WEIGHT_SECTION" <= lines[p]
    ensures ParseLine(lines, p, st, number) == Err(Parsing(OnlyExplicit)) <==> st.metric != Explicit
    ensures ParseLine(lines, p, st, number) == Err(Parsing("Unknown edge weight format")) <==>
      st.metric == Explicit && st.format == UnknownFormat
  {
    var line := lines[p];
    assert line[0] == 'E' && line[12] == 'S';
  }

  /** A node or demand section is refused with "Invalid dimensions" exactly when no non-zero
      `DIMENSION` has been read before it. */
  lemma DimensionsGuard(lines: seq<string>, p: nat, st: ParseState, number: NumberParser)
    requires p < |lines| && ("NODE_COORD_SECTION" <= lines[p] || "DEMAND_SECTION" <= lines[p])
    ensures ParseLine(lines, p, st, number) == Err(Parsing("Invalid dimensions")) <==> st.dimensions == 0
  {
    var line := lines[p];
    assert (line[0] == 'N' && line[1] == 'O') || (line[0] == 'D' && line[1] == 'E');
  }

  /** The problem is refused with "Only one depot is supported" exactly when the depot
      section held other than one id; without a depot section the `null` list throws. */
  lemma OneDepotGuard(st: ParseState)
    ensures Assemble(st) == Err(Parsing(OneDepot)) <==> st.depotIds.Some? && |st.depotIds.value| != 1
    ensures st.depotIds.None? ==> Assemble(st) == Err(NullPointer)
  {
  }

  /** The Explicit clients from location `i`: built exactly when the loop has demands and
      locations up to index `d - 1`; then the k-th is location `i + k` with id `i + k + 1`. */
  lemma {:induction false} ExplicitClientsRead(demands: Option<seq<int>>, locations: seq<Location>, i: nat, d: int)
    ensures ExplicitClients(demands, locations, i, d).Ok? <==>
      i >= d || (demands.Some? && d <= |demands.value| && d <= |locations|)
    ensures var r := ExplicitClients(demands, locations, i, d);
      r.Ok? ==> (|r.value| == (if i < d then d - i else 0) &&
          forall k :: 0 <= k < |r.value| ==> r.value[k] == Client(i + k + 1, demands.value[i + k], locations[i + k]))
    decreases if i < d then d - i else 0
  {
    if i < d && demands.Some? && i < |demands.value| && i < |locations| {
      ExplicitClientsRead(demands, locations, i + 1, d);
    }
  }

  /** The Explicit branch: the depot is the first location with id 1 and location k, for k
      from 1 up to the dimension, is the client with id `k + 1` and the demand of line k + 1;
      it succeeds exactly when those locations and demands are there. */
  lemma ExplicitNumbering(locations: Option<seq<Location>>, demands: Option<seq<int>>, d: int)
    ensures ExplicitPlaces(locations, demands, d).Ok? <==>
      locations.Some? && |locations.value| > 0 &&
      (d <= 1 || (demands.Some? && d <= |demands.value| && d <= |locations.value|))
    ensures var r := ExplicitPlaces(locations, demands, d);
      r.Ok? ==> (r.value.0 == Depot(1, locations.value[0]) && |r.value.1| == (if d > 1 then d - 1 else 0) &&
          forall k :: 0 <= k < |r.value.1| ==> r.value.1[k] == Client(k + 2, demands.value[k + 1], locations.value[k + 1]))
  {
    if locations.Some? && |locations.value| > 0 {
      ExplicitClientsRead(demands, locations.value, 1, d);
    }
  }

  /** How many locations `convertClients` reads from index `i` on with `n` demands: up to the
      last index that is not the depot's. */
  function Needed(depot: int, i: nat, n: nat): nat {
    if i >= n then 0
    else if depot == n - 1 then (if i == depot then 0 else n - 1)
    else n
  }

  /** The index of the k-th client `convertClients` builds from index `i` on: the depot's
      index is stepped over. */
  function Source(depot: int, i: nat, k: nat): nat {
    if depot < i || i + k < depot then i + k else i + k + 1
  }

  /** The loop of `convertClients` from index `i`: it succeeds exactly when the locations
      reach the last non-depot index and the depot has no positive demand; it throws "Cannot
      set demand to depot" exactly when it reaches a depot with a positive demand; and the
      k-th client built has id `id + k` and the demand and location of index `Source(k)`. */
  lemma {:induction false} ClientsFromRead(depot: int, demands: seq<int>, locations: seq<Location>, i: nat, id: int)
    requires i <= |demands|
    ensures ClientsFrom(depot, demands, locations, i, id).Ok? <==>
      Needed(depot, i, |demands|) <= |locations| && !(i <= depot < |demands| && demands[depot] > 0)
    ensures ClientsFrom(depot, demands, locations, i, id) == Err(Parsing(DepotDemand)) <==>
      i <= depot < |demands| && demands[depot] > 0 && Needed(depot, i, depot) <= |locations|
    ensures var r := ClientsFrom(depot, demands, locations, i, id);
      r.Ok? ==> (|r.value| == |demands| - i - (if i <= depot < |demands| then 1 else 0) &&
          forall k :: 0 <= k < |r.value| ==>
            Source(depot, i, k) < |demands| && Source(depot, i, k) < |locations| &&
            r.value[k] == Client(id + k, demands[Source(depot, i, k)], locations[Source(depot, i, k)]))
    decreases |demands| - i
  {
    if i < |demands| {
      if i == depot {
        ClientsFromRead(depot, demands, locations, i + 1, id);
      } else if i < |locations| {
        ClientsFromRead(depot, demands, locations, i + 1, id + 1);
      }
    }
  }

  /** The other metrics: the depot is location `depotId` with id 1 and the clients are the
      other indices of the demands, in order, with ids 2, 3, ... . */
  lemma NumberedClients(depotId: int, locations: Option<seq<Location>>, demands: Option<seq<int>>)
    ensures NumberedPlaces(depotId, locations, demands).Ok? <==>
      locations.Some? && 0 <= depotId - 1 < |locations.value| && demands.Some? &&
      Needed(depotId - 1, 0, |demands.value|) <= |locations.value| &&
      !(depotId - 1 < |demands.value| && demands.value[depotId - 1] > 0)
    ensures var r := NumberedPlaces(depotId, locations, demands);
      r.Ok? ==> (r.value.0 == Depot(1, locations.value[depotId - 1]) &&
          |r.value.1| == |demands.value| - (if depotId - 1 < |demands.value| then 1 else 0) &&
          forall k :: 0 <= k < |r.value.1| ==>
            Source(depotId - 1, 0, k) < |demands.value| && Source(depotId - 1, 0, k) < |locations.value| &&
            r.value.1[k] == Client(k + 2, demands.value[Source(depotId - 1, 0, k)], locations.value[Source(depotId - 1, 0, k)]))
    ensures var r := NumberedPlaces(depotId, locations, demands);
      r == Err(Parsing(DepotDemand)) <==>
        locations.Some? && 0 <= depotId - 1 < |locations.value| && demands.Some? &&
        depotId - 1 < |demands.value| && demands.value[depotId - 1] > 0
  {
    if locations.Some? && 0 <= depotId - 1 < |locations.value| && demands.Some? {
      ClientsFromRead(depotId - 1, demands.value, locations.value, 0, 2);
    }
  }

  /** Whatever the metric, a parsed problem has one vehicle with id 1 carrying the capacity
      read, a depot with id 1, and clients numbered 2, 3, ... in order. */
  lemma AssembledNumbering(st: ParseState)
    ensures var r := Assemble(st);
      r.Ok? ==> (r.value.vehicles == [Vehicle(1, st.capacity)] && r.value.depot.id == 1 &&
          forall k :: 0 <= k < |r.value.clients| ==> r.value.clients[k].id == k + 2)
  {
    if st.depotIds.Some? && |st.depotIds.value| == 1 {
      if st.metric == Explicit {
        ExplicitNumbering(st.locations, st.demands, st.dimensions);
      } else {
        NumberedClients(st.depotIds.value[0], st.locations, st.demands);
      }
    }
  }

  /** `parseReader` on a whole input: the numbering above holds for every problem it returns. */
  lemma ParsedNumbering(lines: seq<string>, number: NumberParser)
    ensures var r := ParseLines(lines, number);
      r.Ok? ==> (|r.value.vehicles| == 1 && r.value.vehicles[0].id == 1 && r.value.depot.id == 1 &&
          forall k :: 0 <= k < |r.value.clients| ==> r.value.clients[k].id == k + 2)
  {
    var st := Scan(lines, 0, Initial, number);
    if st.Ok? {
      AssembledNumbering(st.value);
    }
  }

  // ---------------------------------------------------------------------------------------
  // The methods

  /** `parseReader` over the lines of the input. */
  method ParseReader(lines: seq<string>, number: NumberParser) returns (r: Result<VrpProblem, ParseError>)
    ensures r == ParseLines(lines, number)
  {
    var st := Initial;
    var p := 0;
    while p < |lines|
      invariant p <= |lines| && Scan(lines, 0, Initial, number) == Scan(lines, p, st, number)
      decreases |lines| - p
    {
      var next := ReadLine(lines, p, st, number);
      if next.Err? {
        return Err(next.error);
      }
      st, p := next.value.0, next.value.1;
    }
    r := Finish(st);
  }

  /** The body of the loop of `parseReader` for line `p`. */
  method ReadLine(lines: seq<string>, p: nat, st: ParseState, number: NumberParser)
    returns (r: Result<(ParseState, nat), ParseError>)
    requires p < |lines|
    ensures r == ParseLine(lines, p, st, number)
  {
    if HeaderKeyword(lines[p]) {
      var h := ReadHeader(lines[p], st, number);
      r := if h.Err? then Err(h.error) else Ok((h.value, p + 1));
    } else {
      r := ReadSection(lines, p, st, number);
    }
  }

  /** The header lines of the loop of `parseReader`. */
  method ReadHeader(line: string, st: ParseState, number: NumberParser) returns (r: Result<ParseState, ParseError>)
    requires HeaderKeyword(line)
    ensures r == HeaderLine(line, st, number)
  {
    if "NAME" <= line {
      var v := ParseName(line);
      r := if v.Err? then Err(v.error) else Ok(st.(name := Some(v.value)));
    } else if "COMMENT" <= line {
      var v := ParseBestKnownSolution(line, number);
      r := if v.Err? then Err(v.error) else Ok(st.(bestSolution := v.value));
    } else if "DIMENSION" <= line {
      var v := ParseCount(line);
      r := if v.Err? then Err(v.error) else Ok(st.(dimensions := v.value));
    } else if "CAPACITY" <= line {
      var v := ParseCount(line);
      r := if v.Err? then Err(v.error) else Ok(st.(capacity := v.value));
    } else if "EDGE_WEIGHT_FORMAT" <= line {
      var v := ParseEdgeWeightFormat(line);
      r := if v.Err? then Err(v.error) else Ok(st.(format := v.value));
    } else {
      var v := ParseMetrics(line);
      r := if v.Err? then Err(v.error) else Ok(st.(metric := v.value));
    }
  }

  /** The section lines of the loop of `parseReader`, and the lines it skips. */
  method ReadSection(lines: seq<string>, p: nat, st: ParseState, number: NumberParser)
    returns (r: Result<(ParseState, nat), ParseError>)
    requires p < |lines|
    ensures r == SectionLine(lines, p, st, number)
  {
    var line := lines[p];
    if "EDGE_WEIGHT_SECTION" <= line {
      r := ReadEdgeWeights(lines, p + 1, st, number);
    } else if "NODE_COORD_SECTION" <= line {
      if st.dimensions == 0 {
        return Err(Parsing("Invalid dimensions"));
      }
      var v := ReadLocations(lines, p + 1, st.dimensions, number);
      r := if v.Err? then Err(v.error) else Ok((st.(locations := Some(v.value.0)), v.value.1));
    } else if "DEMAND_SECTION" <= line {
      if st.dimensions == 0 {
        return Err(Parsing("Invalid dimensions"));
      }
      var v := ReadDemands(lines, p + 1, st.dimensions, number);
      r := if v.Err? then Err(v.error) else Ok((st.(demands := Some(v.value.0)), v.value.1));
    } else if "DEPOT_SECTION" <= line {
      var v := ReadDepots(lines, p + 1);
      r := if v.Err? then Err(v.error) else Ok((st.(depotIds := Some(v.value.0)), v.value.1));
    } else {
      r := Ok((st, p + 1));
    }
  }

  /** The `EDGE_WEIGHT_SECTION` branch: the guards, then the reader the format chooses. */
  method ReadEdgeWeights(lines: seq<string>, pos: nat, st: ParseState, number: NumberParser)
    returns (r: Result<(ParseState, nat), ParseError>)
    requires pos <= |lines|
    ensures r == EdgeWeightSection(lines, pos, st, number)
  {
    if st.metric != Explicit {
      return Err(Parsing(OnlyExplicit));
    }
    if st.format == UnknownFormat {
      return Err(Parsing("Unknown edge weight format"));
    }
    var m;
    if st.format == FullMatrix {
      m := ReadFull(lines, pos, st.dimensions, number);
    } else {
      m := ReadTriangle(lines, pos, st.dimensions, number);
    }
    r := if m.Err? then Err(m.error) else Ok((st.(distanceMatrix := Some(m.value.0)), m.value.1));
  }

  /** `parseNonSymmetricalDistanceMatrix` as read in place. */
  method ReadFull(lines: seq<string>, pos: nat, d: int, number: NumberParser)
    returns (r: Result<(DistanceMatrix, nat), ParseError>)
    requires pos <= |lines|
    ensures r == FullMatrixSection(lines, pos, d, number)
  {
    r := ReadFullMatrix(lines, pos, d, number);
    ghost var rows := FullRows(SplitEachOnSpaces(lines), pos, if d > 0 then d else 0, number);
    if rows.Ok? {
      MatrixOfRows(r.value.0, rows.value, d);
    }
  }

  /** A full matrix whose entries hold the rows read is the one the section describes. */
  lemma MatrixOfRows(m: DistanceMatrix, rows: seq<seq<int>>, d: int)
    requires m.dimensions == d && !m.symmetrical && HoldsRows(m.entries, rows)
    ensures m == DistanceMatrix(d, false, RowsEntries(rows))
  {
    HoldsRowsUnique(m.entries, rows);
  }

  /** `parseSymmetricalDistanceMatrix` as read in place. */
  method ReadTriangle(lines: seq<string>, pos: nat, d: int, number: NumberParser)
    returns (r: Result<(DistanceMatrix, nat), ParseError>)
    requires pos <= |lines|
    ensures r == TriangleMatrixSection(lines, pos, d, number)
  {
    r := ReadTriangleMatrix(lines, pos, d, number);
  }

  /** The end of `parseReader`: the depot check, then the depot and the clients. */
  method Finish(st: ParseState) returns (r: Result<VrpProblem, ParseError>)
    ensures r == Assemble(st)
  {
    var vehicles := [Vehicle(1, st.capacity)];
    if st.depotIds.None? {
      return Err(NullPointer);
    }
    if |st.depotIds.value| != 1 {
      return Err(Parsing(OneDepot));
    }
    var placed;
    if st.metric == Explicit {
      placed := ConvertExplicit(st.locations, st.demands, st.dimensions);
    } else {
      var depot := ConvertDepot(st.depotIds.value[0], st.locations);
      if depot.Err? {
        return Err(depot.error);
      }
      var cs := ConvertClients(st.depotIds.value[0], st.demands, st.locations.value);
      placed := if cs.Err? then Err(cs.error) else Ok((depot.value, cs.value));
    }
    if placed.Err? {
      return Err(placed.error);
    }
    r := Ok(VrpProblem(st.name, st.bestSolution, st.dimensions, st.metric, placed.value.1, vehicles, placed.value.0, st.distanceMatrix));
  }

  /** The Explicit branch after the loop: location 0 is the depot and each location i from 1
      up to the dimension becomes the client with id i + 1. */
  method ConvertExplicit(locations: Option<seq<Location>>, demands: Option<seq<int>>, d: int)
    returns (r: Result<(Depot, seq<Client>), ParseError>)
    ensures r == ExplicitPlaces(locations, demands, d)
  {
    if locations.None? {
      return Err(NullPointer);
    }
    var ls := locations.value;
    if |ls| == 0 {
      return Err(IndexOutOfBounds);
    }
    var depot := Depot(1, ls[0]);
    var clients: seq<Client> := [];
    ghost var whole := ExplicitClients(demands, ls, 1, d);
    if whole.Ok? {
      assert [] + whole.value == whole.value;
    }
    var i: nat := 1;
    var id := 2;
    while i < d
      invariant id == i + 1
      invariant whole == ThenClients(clients, ExplicitClients(demands, ls, i, d))
      decreases d - i
    {
      if demands.None? {
        return Err(NullPointer);
      }
      if i >= |demands.value| || i >= |ls| {
        return Err(IndexOutOfBounds);
      }
      ExplicitStep(demands, ls, i, d, clients);
      clients := clients + [Client(id, demands.value[i], ls[i])];
      i, id := i + 1, id + 1;
    }
    assert clients + [] == clients;
    return Ok((depot, clients));
  }

  /** The clients built so far followed by those of the rest of the loop. */
  function ThenClients(cs: seq<Client>, rest: Result<seq<Client>, ParseError>): Result<seq<Client>, ParseError> {
    if rest.Err? then rest else Ok(cs + rest.value)
  }

  lemma ExplicitStep(demands: Option<seq<int>>, locations: seq<Location>, i: nat, d: int, cs: seq<Client>)
    requires i < d && demands.Some? && i < |demands.value| && i < |locations|
    ensures ThenClients(cs, ExplicitClients(demands, locations, i, d)) ==
      ThenClients(cs + [Client(i + 1, demands.value[i], locations[i])], ExplicitClients(demands, locations, i + 1, d))
  {
    var rest := ExplicitClients(demands, locations, i + 1, d);
    if rest.Ok? {
      var c := Client(i + 1, demands.value[i], locations[i]);
      assert cs + ([c] + rest.value) == (cs + [c]) + rest.value;
    }
  }

  /** `convertDepot`. */
  method ConvertDepot(depotId: int, locations: Option<seq<Location>>) returns (r: Result<Depot, ParseError>)
    ensures r == DepotAt(depotId, locations)
  {
    if locations.None? {
      return Err(NullPointer);
    }
    if !(0 <= depotId - 1 < |locations.value|) {
      return Err(IndexOutOfBounds);
    }
    return Ok(Depot(1, locations.value[depotId - 1]));
  }

  /** `convertClients`: every index of the demands but the depot's becomes a client with the
      next id, from 2; a positive demand at the depot's index throws. */
  method ConvertClients(depotId: int, demands: Option<seq<int>>, locations: seq<Location>)
    returns (r: Result<seq<Client>, ParseError>)
    ensures r == ConvertedClients(depotId, demands, locations)
  {
    if demands.None? {
      return Err(NullPointer);
    }
    var ds := demands.value;
    var clients: seq<Client> := [];
    ghost var whole := ClientsFrom(depotId - 1, ds, locations, 0, 2);
    if whole.Ok? {
      assert [] + whole.value == whole.value;
    }
    var id := 2;
    var i := 0;
    while i < |ds|
      invariant 0 <= i <= |ds|
      invariant whole == ThenClients(clients, ClientsFrom(depotId - 1, ds, locations, i, id))
    {
      if i == depotId - 1 {
        if ds[i] > 0 {
          return Err(Parsing(DepotDemand));
        }
        i := i + 1;
        continue;
      }
      if i >= |locations| {
        return Err(IndexOutOfBounds);
      }
      ClientStep(depotId - 1, ds, locations, i, id, clients);
      clients := clients + [Client(id, ds[i], locations[i])];
      i, id := i + 1, id + 1;
    }
    assert clients + [] == clients;
    return Ok(clients);
  }

  lemma ClientStep(depot: int, demands: seq<int>, locations: seq<Location>, i: nat, id: int, cs: seq<Client>)
    requires i < |demands| && i != depot && i < |locations|
    ensures ThenClients(cs, ClientsFrom(depot, demands, locations, i, id)) ==
      ThenClients(cs + [Client(id, demands[i], locations[i])], ClientsFrom(depot, demands, locations, i + 1, id + 1))
  {
    var rest := ClientsFrom(depot, demands, locations, i + 1, id + 1);
    if rest.Ok? {
      var c := Client(id, demands[i], locations[i]);
      assert cs + ([c] + rest.value) == (cs + [c]) + rest.value;
    }
  }
}
