/** The data sections of an instance file that describe the nodes (TSPLIB95 section 1.2):
    `NODE_COORD_SECTION`, one `id x y` line per node, `DEMAND_SECTION`, one `id demand` line
    per node, and `DEPOT_SECTION`, one depot id per line up to a negative id. The reader is
    the sequence of lines with the position of the next one; reading past the last line is
    the `NullPointerException` of `readLine().split`. */
module NodeSections {
  import opened Outcomes
  import opened Vrp
  import opened JavaStrings
  import opened VrpHeaders

  /** How many times `for (int i = from; i <= to; i++)` runs. */
  function Span(from: int, to: int): nat {
    if from <= to then to - from + 1 else 0
  }

  // ---------------------------------------------------------------------------------------
  // One numbered line

  /** One line of `NODE_COORD_SECTION` read as the i-th: three items split on `" "`, an
      integer id equal to `i` and two coordinates. */
  function LocationLine(line: string, i: int, number: NumberParser): Result<Location, ParseError> {
    var items := Split(line, " ");
    if |items| != 3 then Err(Parsing("Invalid location"))
    else
      var id, latitude, longitude := ParseInt(items[0]), number(items[1]), number(items[2]);
      if id.None? || latitude.None? || longitude.None? then Err(NumberFormat)
      else if id.value != i then Err(Parsing("Invalid location id"))
      else Ok(Location(latitude.value, longitude.value))
  }

  /** One line of `DEMAND_SECTION` read as the i-th: two items split on `" "`, an integer id
      equal to `i` and a demand. */
  function DemandLine(line: string, i: int, number: NumberParser): Result<int, ParseError> {
    var items := Split(line, " ");
    if |items| != 2 then Err(Parsing("Invalid demand"))
    else
      var id, demand := ParseInt(items[0]), number(items[1]);
      if id.None? || demand.None? then Err(NumberFormat)
      else if id.value != i then Err(Parsing("Invalid demand id"))
      else Ok(demand.value)
  }

  /** A coordinate line is accepted exactly when it has three items, the first the number
      `i` and the other two numbers; a wrong item count, an item that is not a number and a
      wrong id are each reported by their own error. */
  lemma LocationLineErrors(line: string, i: int, number: NumberParser)
    ensures var items, r := Split(line, " "), LocationLine(line, i, number);
      && (r.Ok? <==> |items| == 3 && ParseInt(items[0]) == Some(i) && number(items[1]).Some? && number(items[2]).Some?)
      && (r == Err(Parsing("Invalid location")) <==> |items| != 3)
      && (r == Err(NumberFormat) <==>
            |items| == 3 && (ParseInt(items[0]).None? || number(items[1]).None? || number(items[2]).None?))
      && (r == Err(Parsing("Invalid location id")) <==>
            |items| == 3 && ParseInt(items[0]).Some? && ParseInt(items[0]).value != i &&
            number(items[1]).Some? && number(items[2]).Some?)
  {
  }

  /** A demand line is accepted exactly when it has two items, the first the number `i` and
      the second a number; each other case has its own error. */
  lemma DemandLineErrors(line: string, i: int, number: NumberParser)
    ensures var items, r := Split(line, " "), DemandLine(line, i, number);
      && (r.Ok? <==> |items| == 2 && ParseInt(items[0]) == Some(i) && number(items[1]).Some?)
      && (r == Err(Parsing("Invalid demand")) <==> |items| != 2)
      && (r == Err(NumberFormat) <==> |items| == 2 && (ParseInt(items[0]).None? || number(items[1]).None?))
      && (r == Err(Parsing("Invalid demand id")) <==>
            |items| == 2 && ParseInt(items[0]).Some? && ParseInt(items[0]).value != i && number(items[1]).Some?)
  {
  }

  /** An item that `split(" ")` leaves whole: non-empty and without a space. */
  predicate Word(s: string) {
    s != "" && ' ' !in s
  }

  /** The decimal text of an integer holds no space. */
  lemma IntToStringWord(n: int)
    ensures Word(IntToString(n))
  {
    var s := IntToString(n);
    if n < 0 {
      assert s == "-" + Decimal(-n);
      assert forall k :: 1 <= k < |s| ==> s[k] == Decimal(-n)[k - 1];
    }
  }

  /** The line `i x y` written with single spaces reads back as the location (x, y). */
  lemma LocationLineRoundTrip(i: int, x: string, y: string, number: NumberParser)
    requires MinInt <= i <= MaxInt && Word(x) && Word(y) && number(x).Some? && number(y).Some?
    ensures LocationLine(Join([IntToString(i), x, y], " "), i, number) == Ok(Location(number(x).value, number(y).value))
  {
    IntToStringWord(i);
    SplitOfJoin([IntToString(i), x, y], " ");
    ParseIntRoundTrip(i);
  }

  /** The line `i demand` written with a single space reads back as the demand. */
  lemma DemandLineRoundTrip(i: int, demand: string, number: NumberParser)
    requires MinInt <= i <= MaxInt && Word(demand) && number(demand).Some?
    ensures DemandLine(Join([IntToString(i), demand], " "), i, number) == Ok(number(demand).value)
  {
    IntToStringWord(i);
    SplitOfJoin([IntToString(i), demand], " ");
    ParseIntRoundTrip(i);
  }

  // ---------------------------------------------------------------------------------------
  // The numbered sections

  /** The loop `for (int i = from; i <= to; i++)` of `parseLocations` and `parseDemands`,
      with line `p` the next to read: the value of each line in order, or the error of the
      first line that is missing or rejected by `read`. */
  function NumberedLines<T>(lines: seq<string>, p: nat, i: int, n: int, read: (string, int) -> Result<T, ParseError>)
    : (r: Result<seq<T>, ParseError>)
    requires p <= |lines|
    ensures r.Ok? ==> |r.value| == Span(i, n) && p + |r.value| <= |lines|
    decreases Span(i, n)
  {
    if i > n then Ok([])
    else if p >= |lines| then Err(NullPointer)
    else
      match read(lines[p], i)
      case Err(e) => Err(e)
      case Ok(v) =>
        var rest := NumberedLines(lines, p + 1, i + 1, n, read);
        if rest.Err? then rest else Ok([v] + rest.value)
  }

  /** The section is read exactly when its lines are all there and each is accepted for its
      number, and then the k-th value is that of line `p + k`, read as number `i + k`. */
  lemma {:induction false} NumberedLinesRead<T>(lines: seq<string>, p: nat, i: int, n: int, read: (string, int) -> Result<T, ParseError>)
    requires p <= |lines|
    ensures NumberedLines(lines, p, i, n, read).Ok? <==>
      p + Span(i, n) <= |lines| && forall q :: p <= q < p + Span(i, n) ==> read(lines[q], i + (q - p)).Ok?
    ensures NumberedLines(lines, p, i, n, read).Ok? ==>
      forall q :: p <= q < p + Span(i, n) ==> NumberedLines(lines, p, i, n, read).value[q - p] == read(lines[q], i + (q - p)).value
    decreases Span(i, n)
  {
    if i <= n && p < |lines| && read(lines[p], i).Ok? {
      NumberedLinesRead(lines, p + 1, i + 1, n, read);
      var all := NumberedLines(lines, p, i, n, read);
      if all.Ok? {
        var rest := NumberedLines(lines, p + 1, i + 1, n, read);
        forall q | p + 1 <= q < p + Span(i, n)
          ensures all.value[q - p] == read(lines[q], i + (q - p)).value
        {
          assert all.value[q - p] == rest.value[q - (p + 1)];
        }
      }
    }
  }

  /** The values read so far followed by those of the remaining lines. */
  function ThenItems<T>(vs: seq<T>, rest: Result<seq<T>, ParseError>): Result<seq<T>, ParseError> {
    if rest.Err? then rest else Ok(vs + rest.value)
  }

  /** The loop of `parseLocations` and `parseDemands`: reads the lines numbered 1 to `n`
      from `pos` on with `read`, collecting their values; the values and the position after
      the section, or the error of the first line that fails. */
  method ReadNumbered<T>(lines: seq<string>, pos: nat, n: int, read: (string, int) -> Result<T, ParseError>)
    returns (r: Result<(seq<T>, nat), ParseError>)
    requires pos <= |lines|
    ensures var section := NumberedLines(lines, pos, 1, n, read);
      && (section.Err? ==> r == Err(section.error))
      && (section.Ok? ==> r == Ok((section.value, pos + Span(1, n))))
  {
    ghost var whole := NumberedLines(lines, pos, 1, n, read);
    var values: seq<T> := [];
    if whole.Ok? {
      assert [] + whole.value == whole.value;
    }
    var p: nat, i := pos, 1;
    while i <= n
      invariant p <= |lines| && |values| == i - 1 && p == pos + i - 1 && 1 <= i
      invariant whole == ThenItems(values, NumberedLines(lines, p, i, n, read))
      decreases Span(i, n)
    {
      if p >= |lines| {
        return Err(NullPointer);
      }
      var v := read(lines[p], i);
      if v.Err? {
        return Err(v.error);
      }
      NumberedStep(lines, p, i, n, read, values);
      values := values + [v.value];
      p, i := p + 1, i + 1;
    }
    assert values + [] == values;
    return Ok((values, p));
  }

  /** One more accepted line extends the values read so far. */
  lemma NumberedStep<T>(lines: seq<string>, p: nat, i: int, n: int, read: (string, int) -> Result<T, ParseError>, values: seq<T>)
    requires i <= n && p < |lines| && read(lines[p], i).Ok?
    ensures ThenItems(values, NumberedLines(lines, p, i, n, read)) ==
      ThenItems(values + [read(lines[p], i).value], NumberedLines(lines, p + 1, i + 1, n, read))
  {
    var rest := NumberedLines(lines, p + 1, i + 1, n, read);
    if rest.Ok? {
      assert values + ([read(lines[p], i).value] + rest.value) == (values + [read(lines[p], i).value]) + rest.value;
    }
  }

  /** A section throws only what reading one of its lines throws, or the
      `NullPointerException` of a missing line. */
  lemma {:induction false} NumberedLinesErrors<T>(lines: seq<string>, p: nat, i: int, n: int,
                                                  read: (string, int) -> Result<T, ParseError>, errors: set<ParseError>)
    requires p <= |lines|
    requires forall line, j :: read(line, j).Err? ==> read(line, j).error in errors
    ensures NumberedLines(lines, p, i, n, read).Err? ==> NumberedLines(lines, p, i, n, read).error in errors + {NullPointer}
    decreases Span(i, n)
  {
    if i <= n && p < |lines| && read(lines[p], i).Ok? {
      NumberedLinesErrors(lines, p + 1, i + 1, n, read, errors);
    }
  }

  /** `parseLocations`: the `n` coordinate lines after `NODE_COORD_SECTION`. */
  function LocationsSection(lines: seq<string>, pos: nat, n: int, number: NumberParser): (r: Result<seq<Location>, ParseError>)
    requires pos <= |lines|
    ensures r.Ok? ==> |r.value| == Span(1, n) && pos + |r.value| <= |lines|
    ensures r.Err? ==> r.error in {NullPointer, NumberFormat, Parsing("Invalid location"), Parsing("Invalid location id")}
  {
    NumberedLinesErrors(lines, pos, 1, n, (line, i) => LocationLine(line, i, number),
                        {NumberFormat, Parsing("Invalid location"), Parsing("Invalid location id")});
    NumberedLines(lines, pos, 1, n, (line, i) => LocationLine(line, i, number))
  }

  /** `parseDemands`: the `n` demand lines after `DEMAND_SECTION`. */
  function DemandsSection(lines: seq<string>, pos: nat, n: int, number: NumberParser): (r: Result<seq<int>, ParseError>)
    requires pos <= |lines|
    ensures r.Ok? ==> |r.value| == Span(1, n) && pos + |r.value| <= |lines|
    ensures r.Err? ==> r.error in {NullPointer, NumberFormat, Parsing("Invalid demand"), Parsing("Invalid demand id")}
  {
    NumberedLinesErrors(lines, pos, 1, n, (line, i) => DemandLine(line, i, number),
                        {NumberFormat, Parsing("Invalid demand"), Parsing("Invalid demand id")});
    NumberedLines(lines, pos, 1, n, (line, i) => DemandLine(line, i, number))
  }

  method ReadLocations(lines: seq<string>, pos: nat, n: int, number: NumberParser)
    returns (r: Result<(seq<Location>, nat), ParseError>)
    requires pos <= |lines|
    ensures var section := LocationsSection(lines, pos, n, number);
      && (section.Err? ==> r == Err(section.error))
      && (section.Ok? ==> r == Ok((section.value, pos + Span(1, n))))
  {
    r := ReadNumbered(lines, pos, n, (line, i) => LocationLine(line, i, number));
  }

  method ReadDemands(lines: seq<string>, pos: nat, n: int, number: NumberParser)
    returns (r: Result<(seq<int>, nat), ParseError>)
    requires pos <= |lines|
    ensures var section := DemandsSection(lines, pos, n, number);
      && (section.Err? ==> r == Err(section.error))
      && (section.Ok? ==> r == Ok((section.value, pos + Span(1, n))))
  {
    r := ReadNumbered(lines, pos, n, (line, i) => DemandLine(line, i, number));
  }

  /** The coordinate section is read exactly when its `n` lines are there and line k is a
      valid coordinate line numbered k; then the k-th location is the one on that line. */
  lemma LocationsSectionRead(lines: seq<string>, pos: nat, n: int, number: NumberParser)
    requires pos <= |lines|
    ensures LocationsSection(lines, pos, n, number).Ok? <==>
      pos + Span(1, n) <= |lines| && forall q :: pos <= q < pos + Span(1, n) ==> LocationLine(lines[q], q - pos + 1, number).Ok?
    ensures LocationsSection(lines, pos, n, number).Ok? ==>
      forall q :: pos <= q < pos + Span(1, n) ==>
        LocationsSection(lines, pos, n, number).value[q - pos] == LocationLine(lines[q], q - pos + 1, number).value
  {
    NumberedLinesRead(lines, pos, 1, n, (line, i) => LocationLine(line, i, number));
  }

  /** The demand section is read exactly when its `n` lines are there and line k is a valid
      demand line numbered k; then the k-th demand is the one on that line. */
  lemma DemandsSectionRead(lines: seq<string>, pos: nat, n: int, number: NumberParser)
    requires pos <= |lines|
    ensures DemandsSection(lines, pos, n, number).Ok? <==>
      pos + Span(1, n) <= |lines| && forall q :: pos <= q < pos + Span(1, n) ==> DemandLine(lines[q], q - pos + 1, number).Ok?
    ensures DemandsSection(lines, pos, n, number).Ok? ==>
      forall q :: pos <= q < pos + Span(1, n) ==>
        DemandsSection(lines, pos, n, number).value[q - pos] == DemandLine(lines[q], q - pos + 1, number).value
  {
    NumberedLinesRead(lines, pos, 1, n, (line, i) => DemandLine(line, i, number));
  }

  // ---------------------------------------------------------------------------------------
  // DEPOT_SECTION

  /** `Integer.parseInt(line.replace(" ", ""))`. */
  function DepotId(line: string): Option<int> {
    ParseInt(RemoveAll(line, ' '))
  }

  /** The loop of `parseDepots` from line `p`: the ids up to the first negative one, which
      is read and dropped, or up to the end of the input; and the position after the last
      line read. A line that is not an integer throws. */
  function DepotsFrom(lines: seq<string>, p: nat): (r: Result<(seq<int>, nat), ParseError>)
    requires p <= |lines|
    ensures r.Ok? ==> p + |r.value.0| <= r.value.1 <= |lines|
    ensures r.Err? ==> r.error == NumberFormat
    decreases |lines| - p
  {
    if p == |lines| then Ok(([], p))
    else
      var id := DepotId(lines[p]);
      if id.None? then Err(NumberFormat)
      else if id.value < 0 then Ok(([], p + 1))
      else
        var rest := DepotsFrom(lines, p + 1);
        if rest.Err? then rest else Ok(([id.value] + rest.value.0, rest.value.1))
  }

  /** The ids collected are those of the lines read, in order, none of them negative. */
  lemma {:induction false} DepotsFromIds(lines: seq<string>, p: nat)
    requires p <= |lines|
    ensures var r := DepotsFrom(lines, p);
      r.Ok? ==> forall q :: p <= q < p + |r.value.0| ==> DepotId(lines[q]) == Some(r.value.0[q - p]) && r.value.0[q - p] >= 0
    decreases |lines| - p
  {
    var r := DepotsFrom(lines, p);
    if p < |lines| && r.Ok? && DepotId(lines[p]).value >= 0 {
      DepotsFromIds(lines, p + 1);
      var rest := DepotsFrom(lines, p + 1);
      forall q | p + 1 <= q < p + |r.value.0|
        ensures DepotId(lines[q]) == Some(r.value.0[q - p])
      {
        assert r.value.0[q - p] == rest.value.0[q - (p + 1)];
      }
    }
  }

  /** The section stops right after the first negative id, or at the end of the input when
      there is none. */
  lemma {:induction false} DepotsFromStop(lines: seq<string>, p: nat)
    requires p <= |lines|
    ensures var r := DepotsFrom(lines, p);
      r.Ok? ==> var q := p + |r.value.0|;
        (r.value.1 == q == |lines|) ||
        (r.value.1 == q + 1 && q < |lines| && DepotId(lines[q]).Some? && DepotId(lines[q]).value < 0)
    decreases |lines| - p
  {
    if p < |lines| && DepotId(lines[p]).Some? && DepotId(lines[p]).value >= 0 {
      DepotsFromStop(lines, p + 1);
    }
  }

  /** The section is read exactly when, from `p` on, non-negative ids run up to a negative
      id or to the end of the input. */
  lemma {:induction false} DepotsFromOk(lines: seq<string>, p: nat)
    requires p <= |lines|
    ensures DepotsFrom(lines, p).Ok? <==> exists q :: p <= q <= |lines| && DepotsEnd(lines, p, q)
    decreases |lines| - p
  {
    if p == |lines| {
      assert DepotsEnd(lines, p, p);
    } else if DepotId(lines[p]).None? {
      forall q | p <= q <= |lines| && DepotsEnd(lines, p, q)
        ensures false
      {
      }
    } else if DepotId(lines[p]).value < 0 {
      assert DepotsEnd(lines, p, p);
    } else {
      DepotsFromOk(lines, p + 1);
      if DepotsFrom(lines, p + 1).Ok? {
        var q :| p + 1 <= q <= |lines| && DepotsEnd(lines, p + 1, q);
        assert DepotsEnd(lines, p, q);
      } else {
        forall q | p <= q <= |lines| && DepotsEnd(lines, p, q)
          ensures false
        {
          assert DepotsEnd(lines, p + 1, q);
        }
      }
    }
  }

  /** The lines from `p` up to `q` are non-negative ids, and line `q` is a negative id or
      the end of the input. */
  predicate DepotsEnd(lines: seq<string>, p: nat, q: nat)
    requires p <= q <= |lines|
  {
    (forall k :: p <= k < q ==> DepotId(lines[k]).Some? && DepotId(lines[k]).value >= 0) &&
    (q == |lines| || (DepotId(lines[q]).Some? && DepotId(lines[q]).value < 0))
  }

  /** The ids read so far followed by those of the remaining lines. */
  function ThenIds(ids: seq<int>, rest: Result<(seq<int>, nat), ParseError>): Result<(seq<int>, nat), ParseError> {
    if rest.Err? then rest else Ok((ids + rest.value.0, rest.value.1))
  }

  /** `parseDepots`: reads ids until the end of the input or a negative id. */
  method ReadDepots(lines: seq<string>, pos: nat) returns (r: Result<(seq<int>, nat), ParseError>)
    requires pos <= |lines|
    ensures r == DepotsFrom(lines, pos)
  {
    var ids: seq<int> := [];
    ghost var whole := DepotsFrom(lines, pos);
    if whole.Ok? {
      assert [] + whole.value.0 == whole.value.0;
    }
    var p := pos;
    while p < |lines|
      invariant pos <= p <= |lines|
      invariant whole == ThenIds(ids, DepotsFrom(lines, p))
      decreases |lines| - p
    {
      var id := DepotId(lines[p]);
      if id.None? {
        return Err(NumberFormat);
      }
      if id.value < 0 {
        assert ids + [] == ids;
        return Ok((ids, p + 1));
      }
      DepotStep(lines, p, ids);
      ids := ids + [id.value];
      p := p + 1;
    }
    assert ids + [] == ids;
    return Ok((ids, p));
  }

  /** One more non-negative id extends the ids read so far. */
  lemma DepotStep(lines: seq<string>, p: nat, ids: seq<int>)
    requires p < |lines| && DepotId(lines[p]).Some? && DepotId(lines[p]).value >= 0
    ensures ThenIds(ids, DepotsFrom(lines, p)) == ThenIds(ids + [DepotId(lines[p]).value], DepotsFrom(lines, p + 1))
  {
    var rest := DepotsFrom(lines, p + 1);
    if rest.Ok? {
      assert ids + ([DepotId(lines[p]).value] + rest.value.0) == (ids + [DepotId(lines[p]).value]) + rest.value.0;
    }
  }
}
