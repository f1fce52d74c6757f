/** The two readers of an `EDGE_WEIGHT_SECTION` (TSPLIB95 section 1.2): a `FULL_MATRIX` of
    `dimensions` lines whose j-th number on line i is the distance from i to j, and a
    `LOWER_ROW` section read as a stream of numbers placed by the counter walk of
    `TriangleWalk`. The reader is the sequence of lines with the position of the next one;
    reading past the last line is the `NullPointerException` of `readLine().split`. */
module MatrixSections {
  import opened Outcomes
  import opened Vrp
  import opened JavaStrings
  import opened VrpHeaders
  import opened TriangleWalk

  /** The items of a line from index `k` on that are not empty, in order. */
  function TokensFrom(items: seq<string>, k: nat): (r: seq<string>)
    decreases |items| - k
  {
    if k >= |items| then [] else TokenCell(items[k]) + TokensFrom(items, k + 1)
  }

  /** One item: kept unless it is empty. */
  function TokenCell(item: string): seq<string> {
    if item == "" then [] else [item]
  }

  /** The loop over the items of a line from index `k` on that skips `""` and calls
      `Double.parseDouble` on the rest: their numbers, in order. */
  function RowValuesFrom(items: seq<string>, k: nat, number: NumberParser): (r: Result<seq<int>, ParseError>)
    ensures r.Err? ==> r.error == NumberFormat
    decreases |items| - k
  {
    if k >= |items| then Ok([])
    else if items[k] == "" then RowValuesFrom(items, k + 1, number)
    else if number(items[k]).None? then Err(NumberFormat)
    else ThenValues([number(items[k]).value], RowValuesFrom(items, k + 1, number))
  }

  /** The numbers of a line's items. */
  function RowValues(items: seq<string>, number: NumberParser): Result<seq<int>, ParseError> {
    RowValuesFrom(items, 0, number)
  }

  /** Every one of `ts` reads as a number. */
  predicate AllNumbers(ts: seq<string>, number: NumberParser) {
    forall j :: 0 <= j < |ts| ==> number(ts[j]).Some?
  }

  /** A line's numbers are there exactly when every non-empty item is a number, and then
      the j-th of them is the value of the j-th non-empty item. */
  lemma {:induction false} RowValuesTokens(items: seq<string>, k: nat, number: NumberParser)
    ensures RowValuesFrom(items, k, number).Ok? <==> AllNumbers(TokensFrom(items, k), number)
    ensures RowValuesFrom(items, k, number).Ok? ==>
      var vs, ts := RowValuesFrom(items, k, number).value, TokensFrom(items, k);
      |vs| == |ts| && forall j :: 0 <= j < |ts| ==> vs[j] == number(ts[j]).value
    decreases |items| - k
  {
    if k < |items| {
      RowValuesTokens(items, k + 1, number);
      var ts := TokensFrom(items, k + 1);
      var all := TokensFrom(items, k);
      if items[k] == "" {
        assert all == ts;
      } else {
        assert all == [items[k]] + ts;
        assert forall j :: 1 <= j < |all| ==> all[j] == ts[j - 1];
        if number(items[k]).Some? && RowValuesFrom(items, k + 1, number).Err? {
          var j :| 0 <= j < |ts| && number(ts[j]).None?;
          assert all[j + 1] == ts[j];
        } else if number(items[k]).None? {
          assert all[0] == items[k];
        }
      }
    }
  }

  /** The numbers a reader has collected so far followed by the rest of the line's. */
  function ThenValues(vs: seq<int>, rest: Result<seq<int>, ParseError>): Result<seq<int>, ParseError> {
    if rest.Err? then rest else Ok(vs + rest.value)
  }

  /** One more item of a line: skipped when empty, rejected when not a number, and otherwise
      its number follows those collected so far. */
  lemma RowValuesNext(items: seq<string>, k: nat, number: NumberParser, row: seq<int>)
    requires k < |items|
    ensures items[k] == "" ==> RowValuesFrom(items, k, number) == RowValuesFrom(items, k + 1, number)
    ensures items[k] != "" && number(items[k]).None? ==> RowValuesFrom(items, k, number) == Err(NumberFormat)
    ensures items[k] != "" && number(items[k]).Some? ==>
      ThenValues(row, RowValuesFrom(items, k, number)) ==
      ThenValues(row + [number(items[k]).value], RowValuesFrom(items, k + 1, number))
  {
    var rest := RowValuesFrom(items, k + 1, number);
    if items[k] != "" && number(items[k]).Some? && rest.Ok? {
      assert row + ([number(items[k]).value] + rest.value) == (row + [number(items[k]).value]) + rest.value;
    }
  }

  // ---------------------------------------------------------------------------------------
  // FULL_MATRIX

  /** `line.split("\\s+")` for every line. */
  function SplitEachOnSpaces(lines: seq<string>): (r: seq<seq<string>>)
    ensures |r| == |lines|
  {
    if lines == [] then [] else [SplitSpaces(lines[0])] + SplitEachOnSpaces(lines[1..])
  }

  lemma {:induction false} SplitEachOnSpacesAt(lines: seq<string>, p: nat)
    requires p < |lines|
    ensures SplitEachOnSpaces(lines)[p] == SplitSpaces(lines[p])
  {
    if p > 0 {
      SplitEachOnSpacesAt(lines[1..], p - 1);
    }
  }

  /** The rows of the `n` lines of a full matrix from line `pos` on, given the items of
      every line. */
  function FullRows(split: seq<seq<string>>, pos: nat, n: nat, number: NumberParser): (r: Result<seq<seq<int>>, ParseError>)
    ensures r.Ok? ==> |r.value| == n && (n > 0 ==> pos + n <= |split|)
    ensures r.Err? ==> r.error == NullPointer || r.error == NumberFormat
    decreases n
  {
    if n == 0 then Ok([])
    else if pos >= |split| then Err(NullPointer)
    else
      var row := RowValues(split[pos], number);
      if row.Err? then Err(row.error)
      else
        ThenRows([row.value], FullRows(split, pos + 1, n - 1, number))
  }

  /** The rows are read exactly when the `n` lines are there and each is a line of numbers. */
  lemma {:induction false} FullRowsOk(split: seq<seq<string>>, pos: nat, n: nat, number: NumberParser)
    requires pos <= |split|
    ensures FullRows(split, pos, n, number).Ok? <==>
      pos + n <= |split| && forall i :: pos <= i < pos + n ==> RowValues(split[i], number).Ok?
    decreases n
  {
    if n > 0 && pos < |split| {
      FullRowsOk(split, pos + 1, n - 1, number);
    }
  }

  /** Row i of what is read is the numbers of line `pos + i`. */
  lemma {:induction false} FullRowsValues(split: seq<seq<string>>, pos: nat, n: nat, number: NumberParser)
    requires pos <= |split|
    ensures FullRows(split, pos, n, number).Ok? ==>
      pos + n <= |split| && |FullRows(split, pos, n, number).value| == n
    ensures FullRows(split, pos, n, number).Ok? ==>
      forall i :: pos <= i < pos + n ==>
        (RowValues(split[i], number).Ok? &&
         FullRows(split, pos, n, number).value[i - pos] == RowValues(split[i], number).value)
    decreases n
  {
    if n > 0 && pos < |split| && FullRows(split, pos, n, number).Ok? {
      FullRowsValues(split, pos + 1, n - 1, number);
      var rows := FullRows(split, pos, n, number).value;
      var rest := FullRows(split, pos + 1, n - 1, number).value;
      assert rows == [RowValues(split[pos], number).value] + rest;
      forall i | pos < i < pos + n
        ensures RowValues(split[i], number).Ok? && rows[i - pos] == RowValues(split[i], number).value
      {
        assert rows[i - pos] == rest[i - (pos + 1)];
      }
    }
  }

  /** The rows read so far followed by those of the remaining lines. */
  function ThenRows(rows: seq<seq<int>>, rest: Result<seq<seq<int>>, ParseError>): Result<seq<seq<int>>, ParseError> {
    if rest.Err? then rest else Ok(rows + rest.value)
  }

  /** No line left to read gives no rows; a line missing before that throws. */
  lemma FullRowsEnd(split: seq<seq<string>>, p: nat, k: nat, number: NumberParser, rows: seq<seq<int>>)
    ensures k == 0 ==> ThenRows(rows, FullRows(split, p, k, number)) == Ok(rows)
    ensures k > 0 && p >= |split| ==> ThenRows(rows, FullRows(split, p, k, number)) == Err(NullPointer)
  {
    assert rows + [] == rows;
  }

  /** Reading one more line of numbers extends the rows read so far. */
  lemma FullRowsNext(split: seq<seq<string>>, p: nat, k: nat, number: NumberParser, rows: seq<seq<int>>)
    requires p < |split| && k > 0 && RowValues(split[p], number).Ok?
    ensures ThenRows(rows, FullRows(split, p, k, number)) ==
      ThenRows(rows + [RowValues(split[p], number).value], FullRows(split, p + 1, k - 1, number))
  {
    var rest := FullRows(split, p + 1, k - 1, number);
    if rest.Ok? {
      assert rows + ([RowValues(split[p], number).value] + rest.value) ==
        (rows + [RowValues(split[p], number).value]) + rest.value;
    }
  }

  /** A matrix whose stored pairs are exactly the (i, j) with j below the length of row i,
      holding `rows[i][j]`. */
  predicate HoldsRows(e: map<(int, int), int>, rows: seq<seq<int>>) {
    (forall c :: c in e ==> 0 <= c.0 < |rows| && 0 <= c.1 < |rows[c.0]|) &&
    (forall i, j :: 0 <= i < |rows| && 0 <= j < |rows[i]| ==> (i, j) in e && e[(i, j)] == rows[i][j])
  }

  /** The entries of a full matrix read as `rows`: (i, j) holds `rows[i][j]`. */
  function RowsEntries(rows: seq<seq<int>>): (e: map<(int, int), int>)
    ensures HoldsRows(e, rows)
  {
    var cells := set i, j | 0 <= i < |rows| && 0 <= j < |rows[i]| :: (i, j);
    map c | c in cells :: rows[c.0][c.1]
  }

  /** `HoldsRows` fixes the entries: only the entries of `RowsEntries` hold the rows. */
  lemma HoldsRowsUnique(e: map<(int, int), int>, rows: seq<seq<int>>)
    requires HoldsRows(e, rows)
    ensures e == RowsEntries(rows)
  {
    var f := RowsEntries(rows);
    assert forall c :: c in e <==> c in f;
  }

  lemma HoldsNewRow(e: map<(int, int), int>, rows: seq<seq<int>>)
    requires HoldsRows(e, rows)
    ensures HoldsRows(e, rows + [[]])
  {
    var all := rows + [[]];
    forall i, j | 0 <= i < |all| && 0 <= j < |all[i]|
      ensures (i, j) in e && e[(i, j)] == all[i][j]
    {
      assert all[i] == rows[i];
    }
  }

  lemma HoldsSet(e: map<(int, int), int>, rows: seq<seq<int>>, row: seq<int>, v: int)
    requires HoldsRows(e, rows + [row])
    ensures HoldsRows(e[(|rows|, |row|) := v], rows + [row + [v]])
  {
    var before, after := rows + [row], rows + [row + [v]];
    var e' := e[(|rows|, |row|) := v];
    forall c | c in e'
      ensures 0 <= c.0 < |after| && 0 <= c.1 < |after[c.0]|
    {
      if c in e {
        assert before[c.0] == after[c.0] || c.0 == |rows|;
      }
    }
    forall i, j | 0 <= i < |after| && 0 <= j < |after[i]|
      ensures (i, j) in e' && e'[(i, j)] == after[i][j]
    {
      if i < |rows| {
        assert after[i] == before[i];
      } else if j < |row| {
        assert after[i][j] == before[i][j];
      }
    }
  }

  /** The inner loop of `parseNonSymmetricalDistanceMatrix`: the j-th number of the items
      of line i is stored at (i, j). */
  method StoreRow(m: DistanceMatrix, i: int, ghost rows: seq<seq<int>>, items: seq<string>, number: NumberParser)
    returns (r: Result<DistanceMatrix, ParseError>)
    requires i == |rows| && HoldsRows(m.entries, rows)
    ensures RowValues(items, number).Err? ==> r == Err(NumberFormat)
    ensures RowValues(items, number).Ok? ==>
      (r.Ok? && r.value.dimensions == m.dimensions && r.value.symmetrical == m.symmetrical &&
       HoldsRows(r.value.entries, rows + [RowValues(items, number).value]))
  {
    var row: seq<int> := [];
    var cur := m;
    HoldsNewRow(m.entries, rows);
    if RowValues(items, number).Ok? {
      assert [] + RowValues(items, number).value == RowValues(items, number).value;
    }
    for k := 0 to |items|
      invariant RowValues(items, number) == ThenValues(row, RowValuesFrom(items, k, number))
      invariant cur.dimensions == m.dimensions && cur.symmetrical == m.symmetrical
      invariant HoldsRows(cur.entries, rows + [row])
    {
      RowValuesNext(items, k, number, row);
      if items[k] == "" {
        continue;
      }
      var dist := number(items[k]);
      if dist.None? {
        return Err(NumberFormat);
      }
      HoldsSet(cur.entries, rows, row, dist.value);
      cur := SetDistance(cur, i, |row|, dist.value);
      row := row + [dist.value];
    }
    assert row + [] == row;
    return Ok(cur);
  }

  /** One line of a full matrix, `k` lines before its end: the numbers of the line stored as
      row `i` of `m`, or the null line past the end. `cut` is how the reader splits a line
      into items and `split` holds the items of every line; `whole` is what the section
      reads, given the rows read so far. */
  method ReadRow(lines: seq<string>, ghost split: seq<seq<string>>, cut: string -> seq<string>, p: nat,
                 m: DistanceMatrix, i: int, ghost rows: seq<seq<int>>, ghost k: nat,
                 ghost whole: Result<seq<seq<int>>, ParseError>, number: NumberParser)
    returns (r: Result<DistanceMatrix, ParseError>, ghost row: seq<int>)
    requires |split| == |lines| && forall q :: 0 <= q < |lines| ==> split[q] == cut(lines[q])
    requires p <= |lines| && k > 0 && i == |rows| && m.entries == RowsEntries(rows)
    requires whole == ThenRows(rows, FullRows(split, p, k, number))
    ensures r.Err? ==> whole == Err(r.error)
    ensures r.Ok? ==>
      r.value.dimensions == m.dimensions && r.value.symmetrical == m.symmetrical &&
      r.value.entries == RowsEntries(rows + [row]) &&
      p < |lines| && whole == ThenRows(rows + [row], FullRows(split, p + 1, k - 1, number))
  {
    if p == |lines| {
      FullRowsEnd(split, p, k, number, rows);
      return Err(NullPointer), [];
    }
    var items := cut(lines[p]);
    r := StoreRow(m, i, rows, items, number);
    row := [];
    if r.Ok? {
      row := RowValues(items, number).value;
      HoldsRowsUnique(r.value.entries, rows + [row]);
      FullRowsNext(split, p, k, number, rows);
    }
  }

  /** The loop of `parseNonSymmetricalDistanceMatrix` over its `n` lines, for a reader that
      splits each line with `cut`; `split` holds the items of every line. */
  method ReadRows(lines: seq<string>, ghost split: seq<seq<string>>, cut: string -> seq<string>,
                  pos: nat, d: int, n: nat, number: NumberParser)
    returns (r: Result<(DistanceMatrix, nat), ParseError>)
    requires |split| == |lines| && forall q :: 0 <= q < |lines| ==> split[q] == cut(lines[q])
    requires pos <= |lines|
    ensures FullRows(split, pos, n, number).Err? ==> r == Err(FullRows(split, pos, n, number).error)
    ensures FullRows(split, pos, n, number).Ok? ==>
      r.Ok? && r.value.1 == pos + n && r.value.0.dimensions == d && !r.value.0.symmetrical &&
      r.value.0.entries == RowsEntries(FullRows(split, pos, n, number).value)
  {
    var m := EmptyMatrix(d, false);
    ghost var whole := FullRows(split, pos, n, number);
    ghost var rows: seq<seq<int>> := [];
    HoldsRowsUnique(m.entries, rows);
    assert ThenRows(rows, FullRows(split, pos, n, number)) == whole by {
      if whole.Ok? {
        assert [] + whole.value == whole.value;
      }
    }
    var p: nat, k: nat := pos, n;
    while k > 0
      invariant p <= |lines| && p + k == pos + n && |rows| == p - pos
      invariant whole == ThenRows(rows, FullRows(split, p, k, number))
      invariant m.dimensions == d && !m.symmetrical && m.entries == RowsEntries(rows)
    {
      var stored, row := ReadRow(lines, split, cut, p, m, p - pos, rows, k, whole, number);
      if stored.Err? {
        return Err(stored.error);
      }
      m := stored.value;
      rows := rows + [row];
      p, k := p + 1, k - 1;
    }
    assert whole == Ok(rows) by {
      FullRowsEnd(split, p, 0, number, rows);
    }
    return Ok((m, p));
  }

  /** `parseNonSymmetricalDistanceMatrix`: reads `dimensions` lines, each split on `"\\s+"`,
      and stores the j-th number of line i at (i, j); a missing line or a token that is not
      a number throws. */
  method ReadFullMatrix(lines: seq<string>, pos: nat, d: int, number: NumberParser)
    returns (r: Result<(DistanceMatrix, nat), ParseError>)
    requires pos <= |lines|
    ensures var rows := FullRows(SplitEachOnSpaces(lines), pos, if d > 0 then d else 0, number);
      rows.Err? ==> r == Err(rows.error)
    ensures var rows := FullRows(SplitEachOnSpaces(lines), pos, if d > 0 then d else 0, number);
      rows.Ok? ==>
        r.Ok? && r.value.1 == pos + (if d > 0 then d else 0) &&
        r.value.0.dimensions == d && !r.value.0.symmetrical && HoldsRows(r.value.0.entries, rows.value)
  {
    forall q | 0 <= q < |lines|
      ensures SplitEachOnSpaces(lines)[q] == SplitSpaces(lines[q])
    {
      SplitEachOnSpacesAt(lines, q);
    }
    r := ReadRows(lines, SplitEachOnSpaces(lines), SplitSpaces, pos, d, if d > 0 then d else 0, number);
  }

  // ---------------------------------------------------------------------------------------
  // LOWER_ROW

  /** The pairs and the values of a list of `setDistance` calls. */
  function Pairs(ws: seq<Write>): seq<(int, int)> {
    seq(|ws|, k requires 0 <= k < |ws| => (ws[k].from, ws[k].to))
  }

  function Values(ws: seq<Write>): seq<int> {
    seq(|ws|, k requires 0 <= k < |ws| => ws[k].value)
  }

  /** The inner loop over the items of one line split on `" "`, from index `k` on: each
      non-empty item is parsed, then placed by one step of the walk; the counters after the
      line and the `setDistance` calls made. */
  function TriangleLineFrom(d: int, items: seq<string>, k: nat, c: Cursor, number: NumberParser): (r: Result<(Cursor, seq<Write>), ParseError>)
    requires d != 0
    ensures r.Err? ==> r.error == NumberFormat || r.error == Parsing("Invalid distance matrix")
    decreases |items| - k
  {
    if k >= |items| then Ok((c, []))
    else if items[k] == "" then TriangleLineFrom(d, items, k + 1, c, number)
    else if number(items[k]).None? then Err(NumberFormat)
    else
      var step := Step(d, c);
      if step.None? then Err(Parsing("Invalid distance matrix"))
      else
        var cell := step.value.1;
        ThenCalls([Write(cell.0, cell.1, number(items[k]).value)], TriangleLineFrom(d, items, k + 1, step.value.0, number))
  }

  /** The calls made so far on a line followed by those of the rest of the line. */
  function ThenCalls(ws: seq<Write>, rest: Result<(Cursor, seq<Write>), ParseError>): Result<(Cursor, seq<Write>), ParseError> {
    if rest.Err? then rest else Ok((rest.value.0, ws + rest.value.1))
  }

  /** `line.split(" ")` for every line. */
  function SplitEach(lines: seq<string>): (r: seq<seq<string>>)
    ensures |r| == |lines|
  {
    if lines == [] then [] else [Split(lines[0], " ")] + SplitEach(lines[1..])
  }

  lemma {:induction false} SplitEachAt(lines: seq<string>, p: nat)
    requires p < |lines|
    ensures SplitEach(lines)[p] == Split(lines[p], " ")
  {
    if p > 0 {
      SplitEachAt(lines[1..], p - 1);
    }
  }

  /** `reader.readLine().split(" ")` on a line that is there. */
  method ReadItems(lines: seq<string>, p: nat) returns (items: seq<string>)
    requires p < |lines|
    ensures items == SplitEach(lines)[p]
  {
    items := Split(lines[p], " ");
    SplitEachAt(lines, p);
  }

  /** The outer loop: while fewer than `Remaining(d)` numbers are stored, read a line, reject
      one with no item, and run the inner loop; the calls made and the position after the
      last line read, given the items of every line. */
  function TriangleLines(split: seq<seq<string>>, pos: nat, d: int, c: Cursor, num: nat, number: NumberParser): (r: Result<(seq<Write>, nat), ParseError>)
    requires pos <= |split|
    ensures r.Err? ==> MatrixError(r.error)
    decreases |split| - pos
  {
    if num >= Remaining(d) then Ok(([], pos))
    else if pos == |split| then Err(NullPointer)
    else
      var items := split[pos];
      if |items| == 0 then Err(Parsing("Invalid distance matrix line"))
      else
        assert d != 0 by {
          if d == 0 {
            RemainingSmall(0);
          }
        }
        var line := TriangleLineFrom(d, items, 0, c, number);
        if line.Err? then Err(line.error)
        else ThenLines(line.value.1, TriangleLines(split, pos + 1, d, line.value.0, num + |line.value.1|, number))
  }

  /** The errors a lower-triangle section can throw: a missing line, an empty line, an item
      that is not a number, or more numbers than the triangle holds. */
  predicate MatrixError(e: ParseError) {
    e == NullPointer || e == NumberFormat ||
    e == Parsing("Invalid distance matrix line") || e == Parsing("Invalid distance matrix")
  }

  /** The section ends at or after its first line and no later than the end of the input. */
  lemma {:induction false} TriangleLinesPosition(split: seq<seq<string>>, pos: nat, d: int, c: Cursor, num: nat, number: NumberParser)
    requires pos <= |split|
    ensures TriangleLines(split, pos, d, c, num, number).Ok? ==>
      pos <= TriangleLines(split, pos, d, c, num, number).value.1 <= |split|
    decreases |split| - pos
  {
    if num < Remaining(d) && pos < |split| && |split[pos]| != 0 {
      assert d != 0 by {
        if d == 0 {
          RemainingSmall(0);
        }
      }
      var line := TriangleLineFrom(d, split[pos], 0, c, number);
      if line.Ok? {
        TriangleLinesPosition(split, pos + 1, d, line.value.0, num + |line.value.1|, number);
      }
    }
  }

  /** The calls made so far followed by those of the remaining lines. */
  function ThenLines(ws: seq<Write>, rest: Result<(seq<Write>, nat), ParseError>): Result<(seq<Write>, nat), ParseError> {
    if rest.Err? then rest else Ok((ws + rest.value.0, rest.value.1))
  }

  lemma ThenLinesTwice(a: seq<Write>, b: seq<Write>, rest: Result<(seq<Write>, nat), ParseError>)
    ensures ThenLines(a, ThenLines(b, rest)) == ThenLines(a + b, rest)
  {
    if rest.Ok? {
      assert a + (b + rest.value.0) == (a + b) + rest.value.0;
    }
  }

  /** While values remain, a non-empty line is read by the walk and the section goes on
      with the next line. */
  lemma TriangleLinesLine(split: seq<seq<string>>, p: nat, d: int, c: Cursor, num: nat, number: NumberParser)
    requires p < |split| && num < Remaining(d) && |split[p]| != 0 && d != 0
    ensures var line := TriangleLineFrom(d, split[p], 0, c, number);
      line.Err? ==> TriangleLines(split, p, d, c, num, number) == Err(line.error)
    ensures var line := TriangleLineFrom(d, split[p], 0, c, number);
      line.Ok? ==> (TriangleLines(split, p, d, c, num, number) ==
        ThenLines(line.value.1, TriangleLines(split, p + 1, d, line.value.0, num + |line.value.1|, number)))
  {
  }

  /** The section ends once every value is read; before that, a missing line is a
      `NullPointerException` and an empty one is rejected. */
  lemma TriangleLinesStop(split: seq<seq<string>>, p: nat, d: int, c: Cursor, num: nat, number: NumberParser)
    requires p <= |split|
    ensures num >= Remaining(d) ==> TriangleLines(split, p, d, c, num, number) == Ok(([], p))
    ensures num < Remaining(d) && p == |split| ==> TriangleLines(split, p, d, c, num, number) == Err(NullPointer)
    ensures num < Remaining(d) && p < |split| && |split[p]| == 0 ==>
      TriangleLines(split, p, d, c, num, number) == Err(Parsing("Invalid distance matrix line"))
  {
  }

  /** The inner loop of `parseSymmetricalDistanceMatrix` over the items of one line: the
      matrix after the line's calls, the counters after it and how many numbers it stored. */
  method StoreLine(m: DistanceMatrix, d: int, items: seq<string>, c: Cursor, number: NumberParser)
    returns (r: Result<(DistanceMatrix, Cursor, nat), ParseError>)
    requires d != 0
    ensures var line := TriangleLineFrom(d, items, 0, c, number);
      line.Err? ==> r == Err(line.error)
    ensures var line := TriangleLineFrom(d, items, 0, c, number);
      line.Ok? ==> r == Ok((m.(entries := Apply(m.entries, line.value.1)), line.value.0, |line.value.1|))
  {
    var cur, at, count := m, c, 0;
    ghost var ws: seq<Write> := [];
    if TriangleLineFrom(d, items, 0, c, number).Ok? {
      assert [] + TriangleLineFrom(d, items, 0, c, number).value.1 == TriangleLineFrom(d, items, 0, c, number).value.1;
    }
    for k := 0 to |items|
      invariant TriangleLineFrom(d, items, 0, c, number) == ThenCalls(ws, TriangleLineFrom(d, items, k, at, number))
      invariant cur == m.(entries := Apply(m.entries, ws)) && count == |ws|
    {
      LineStep(d, items, k, at, number, ws);
      if items[k] == "" {
        continue;
      }
      var dist := number(items[k]);
      if dist.None? {
        return Err(NumberFormat);
      }
      var step := Step(d, at);
      if step.None? {
        return Err(Parsing("Invalid distance matrix"));
      }
      var cell := step.value.1;
      var w := Write(cell.0, cell.1, dist.value);
      ApplySnoc(m.entries, ws, w);
      cur := SetDistance(cur, cell.0, cell.1, dist.value);
      at, count := step.value.0, count + 1;
      ws := ws + [w];
    }
    LineEnd(d, items, at, number, ws);
    return Ok((cur, at, count));
  }

  /** One item of a line, after the calls `ws`: an empty item is skipped, one that is not a
      number throws, a number with no cell left is rejected, and otherwise it is stored at
      the walk's next cell. */
  lemma LineStep(d: int, items: seq<string>, k: nat, c: Cursor, number: NumberParser, ws: seq<Write>)
    requires d != 0 && k < |items|
    ensures items[k] == "" ==>
      ThenCalls(ws, TriangleLineFrom(d, items, k, c, number)) == ThenCalls(ws, TriangleLineFrom(d, items, k + 1, c, number))
    ensures items[k] != "" && number(items[k]).None? ==>
      ThenCalls(ws, TriangleLineFrom(d, items, k, c, number)) == Err(NumberFormat)
    ensures items[k] != "" && number(items[k]).Some? && Step(d, c).None? ==>
      ThenCalls(ws, TriangleLineFrom(d, items, k, c, number)) == Err(Parsing("Invalid distance matrix"))
    ensures items[k] != "" && number(items[k]).Some? && Step(d, c).Some? ==>
      var cell := Step(d, c).value.1;
      ThenCalls(ws, TriangleLineFrom(d, items, k, c, number)) ==
      ThenCalls(ws + [Write(cell.0, cell.1, number(items[k]).value)], TriangleLineFrom(d, items, k + 1, Step(d, c).value.0, number))
  {
    if items[k] != "" && number(items[k]).Some? && Step(d, c).Some? {
      var rest := TriangleLineFrom(d, items, k + 1, Step(d, c).value.0, number);
      var w := Write(Step(d, c).value.1.0, Step(d, c).value.1.1, number(items[k]).value);
      if rest.Ok? {
        assert ws + ([w] + rest.value.1) == (ws + [w]) + rest.value.1;
      }
    }
  }

  /** At the end of the items nothing more is called. */
  lemma LineEnd(d: int, items: seq<string>, c: Cursor, number: NumberParser, ws: seq<Write>)
    requires d != 0
    ensures ThenCalls(ws, TriangleLineFrom(d, items, |items|, c, number)) == Ok((c, ws))
  {
    assert ws + [] == ws;
  }

  /** One line of the lower-row section while values remain: its writes stored into `m`, the
      walk's new position and the new count of values read. */
  method ReadTriangleLine(lines: seq<string>, p: nat, m: DistanceMatrix, d: int, c: Cursor, num: nat, number: NumberParser)
    returns (r: Result<(DistanceMatrix, Cursor, nat), ParseError>, ghost lws: seq<Write>)
    requires p < |lines| && num < Remaining(d)
    ensures r.Err? ==> TriangleLines(SplitEach(lines), p, d, c, num, number) == Err(r.error)
    ensures r.Ok? ==>
      r.value.0 == m.(entries := Apply(m.entries, lws)) && r.value.2 == num + |lws| &&
      TriangleLines(SplitEach(lines), p, d, c, num, number) ==
      ThenLines(lws, TriangleLines(SplitEach(lines), p + 1, d, r.value.1, r.value.2, number))
  {
    var items := ReadItems(lines, p);
    TriangleLinesStop(SplitEach(lines), p, d, c, num, number);
    if |items| == 0 {
      return Err(Parsing("Invalid distance matrix line")), [];
    }
    assert d != 0 by {
      if d == 0 {
        RemainingSmall(0);
      }
    }
    TriangleLinesLine(SplitEach(lines), p, d, c, num, number);
    var stored := StoreLine(m, d, items, c, number);
    if stored.Err? {
      return Err(stored.error), [];
    }
    lws := TriangleLineFrom(d, items, 0, c, number).value.1;
    r := Ok((stored.value.0, stored.value.1, num + stored.value.2));
  }

  /** `parseSymmetricalDistanceMatrix`: the `SymmetricalDistanceMatrix` holds the value of
      the last call for each pair of `TriangleLines` from the start of the walk. */
  method ReadTriangleMatrix(lines: seq<string>, pos: nat, d: int, number: NumberParser)
    returns (r: Result<(DistanceMatrix, nat), ParseError>)
    requires pos <= |lines|
    ensures var calls := TriangleLines(SplitEach(lines), pos, d, Start, 0, number);
      calls.Err? ==> r == Err(calls.error)
    ensures var calls := TriangleLines(SplitEach(lines), pos, d, Start, 0, number);
      calls.Ok? ==> r == Ok((DistanceMatrix(d, true, Apply(map[], calls.value.0)), calls.value.1))
  {
    var remaining := Remaining(d);
    var m := EmptyMatrix(d, true);
    var c := Start;
    var num: nat := 0;
    var p := pos;
    ghost var split := SplitEach(lines);
    ghost var ws: seq<Write> := [];
    if TriangleLines(split, pos, d, Start, 0, number).Ok? {
      assert [] + TriangleLines(split, pos, d, Start, 0, number).value.0 == TriangleLines(split, pos, d, Start, 0, number).value.0;
    }
    while num < remaining
      invariant pos <= p <= |lines|
      invariant m == DistanceMatrix(d, true, Apply(map[], ws))
      invariant TriangleLines(split, pos, d, Start, 0, number) == ThenLines(ws, TriangleLines(split, p, d, c, num, number))
      decreases |lines| - p
    {
      TriangleLinesStop(split, p, d, c, num, number);
      if p == |lines| {
        return Err(NullPointer);
      }
      var read, lws := ReadTriangleLine(lines, p, m, d, c, num, number);
      if read.Err? {
        return Err(read.error);
      }
      ApplyConcat(map[], ws, lws);
      ThenLinesTwice(ws, lws, TriangleLines(split, p + 1, d, read.value.1, read.value.2, number));
      m, c, num := read.value.0, read.value.1, read.value.2;
      ws := ws + lws;
      p := p + 1;
    }
    TriangleLinesStop(split, p, d, c, num, number);
    assert ws + [] == ws;
    return Ok((m, p));
  }

  // ---------------------------------------------------------------------------------------
  // What the LOWER_ROW reader stores

  lemma PairsConcat(a: seq<Write>, b: seq<Write>)
    ensures Pairs(a + b) == Pairs(a) + Pairs(b)
  {
  }

  lemma ValuesConcat(a: seq<Write>, b: seq<Write>)
    ensures Values(a + b) == Values(a) + Values(b)
  {
  }

  /** On a walk through the cells `t`, a number read when `k` cells are filled goes to
      cell k, and one read once they all are is rejected. */
  lemma TokenAt(d: int, t: seq<(int, int)>, items: seq<string>, j: nat, k: nat, number: NumberParser)
    requires d != 0 && WalksThrough(d, t) && k <= |t|
    requires j < |items| && items[j] != "" && number(items[j]).Some?
    ensures k < |t| ==>
      TriangleLineFrom(d, items, j, After(t, k), number) ==
      ThenCalls([Write(t[k].0, t[k].1, number(items[j]).value)], TriangleLineFrom(d, items, j + 1, After(t, k + 1), number))
    ensures k == |t| ==>
      TriangleLineFrom(d, items, j, After(t, k), number) == Err(Parsing("Invalid distance matrix"))
  {
    if k < |t| {
      assert Step(d, After(t, k)) == Some((After(t, k + 1), t[k]));
    }
  }

  /** Along one line the walk stores each number at the next cell of `t`. */
  lemma {:induction false} TriangleLineWalk(d: int, t: seq<(int, int)>, items: seq<string>, j: nat, k: nat, number: NumberParser)
    requires d != 0 && WalksThrough(d, t) && k <= |t|
    ensures Covers(t, k, TriangleLineFrom(d, items, j, After(t, k), number))
    decreases |items| - j
  {
    if j >= |items| {
      assert t[k..k] == [];
    } else if items[j] == "" {
      TriangleLineWalk(d, t, items, j + 1, k, number);
    } else if number(items[j]).Some? {
      TokenAt(d, t, items, j, k, number);
      if k < |t| {
        TriangleLineWalk(d, t, items, j + 1, k + 1, number);
        CallsCons(t, k, Write(t[k].0, t[k].1, number(items[j]).value),
          TriangleLineFrom(d, items, j, After(t, k), number), TriangleLineFrom(d, items, j + 1, After(t, k + 1), number));
      }
    }
  }

  /** The calls of a line read without failing are at the run of cells of `t` from `k` on,
      and leave the counters just past that run. */
  predicate Covers(t: seq<(int, int)>, k: nat, line: Result<(Cursor, seq<Write>), ParseError>) {
    line.Ok? ==>
      k + |line.value.1| <= |t| && Pairs(line.value.1) == t[k..k + |line.value.1|] &&
      line.value.0 == After(t, k + |line.value.1|)
  }

  /** A line that stores at cell `k` of `t` and then at the run of cells after it stores at
      the run from `k`. */
  lemma CallsCons(t: seq<(int, int)>, k: nat, w: Write, line: Result<(Cursor, seq<Write>), ParseError>,
                  rest: Result<(Cursor, seq<Write>), ParseError>)
    requires k < |t| && (w.from, w.to) == t[k] && line == ThenCalls([w], rest)
    requires Covers(t, k + 1, rest)
    ensures Covers(t, k, line)
  {
    if rest.Ok? {
      PairsCons(t, k, w, rest.value.1);
    }
  }

  /** One more call at the cell before a run of cells extends the run. */
  lemma PairsCons(t: seq<(int, int)>, k: nat, w: Write, ws: seq<Write>)
    requires k < |t| && (w.from, w.to) == t[k]
    requires k + 1 + |ws| <= |t| && Pairs(ws) == t[k + 1..k + 1 + |ws|]
    ensures Pairs([w] + ws) == t[k..k + |[w] + ws|]
  {
    PairsConcat([w], ws);
    assert Pairs([w]) == [t[k]];
    assert t[k..k + 1 + |ws|] == [t[k]] + t[k + 1..k + 1 + |ws|];
  }

  /** A run of calls at the cells from `k` followed by a run at the cells after it covers
      the cells from `k` on. */
  lemma PairsJoin(t: seq<(int, int)>, k: nat, a: seq<Write>, b: seq<Write>)
    requires k + |a| <= |t| && Pairs(a) == t[k..k + |a|] && Pairs(b) == t[k + |a|..]
    ensures Pairs(a + b) == t[k..]
  {
    PairsConcat(a, b);
    assert t[k..] == t[k..k + |a|] + t[k + |a|..];
  }

  /** Over the lines the walk stores the numbers at the cells of `t` not yet filled, all
      of them, when `t` has as many cells as the reader counts down. */
  lemma {:induction false} TriangleLinesWalk(split: seq<seq<string>>, pos: nat, d: int, t: seq<(int, int)>, k: nat, number: NumberParser)
    requires pos <= |split| && d != 0 && WalksThrough(d, t) && Remaining(d) == |t| && k <= |t|
    ensures Fills(t, k, TriangleLines(split, pos, d, After(t, k), k, number))
    decreases |split| - pos
  {
    TriangleLinesStop(split, pos, d, After(t, k), k, number);
    if k >= Remaining(d) {
      assert t[k..] == [];
    } else if pos < |split| && |split[pos]| != 0 {
      var items := split[pos];
      TriangleLineWalk(d, t, items, 0, k, number);
      TriangleLinesLine(split, pos, d, After(t, k), k, number);
      var line := TriangleLineFrom(d, items, 0, After(t, k), number);
      if line.Ok? {
        var n := k + |line.value.1|;
        TriangleLinesWalk(split, pos + 1, d, t, n, number);
        LinesJoin(t, k, line, TriangleLines(split, pos + 1, d, After(t, n), n, number),
          TriangleLines(split, pos, d, After(t, k), k, number));
      }
    }
  }

  /** The calls of a section read without failing are at the cells of `t` from `k` on. */
  predicate Fills(t: seq<(int, int)>, k: nat, lines: Result<(seq<Write>, nat), ParseError>)
    requires k <= |t|
  {
    lines.Ok? ==> Pairs(lines.value.0) == t[k..]
  }

  /** A line at the run of cells from `k`, then lines at the cells after that run, are at
      the cells from `k` on. */
  lemma LinesJoin(t: seq<(int, int)>, k: nat, line: Result<(Cursor, seq<Write>), ParseError>,
                  rest: Result<(seq<Write>, nat), ParseError>, whole: Result<(seq<Write>, nat), ParseError>)
    requires k <= |t| && line.Ok? && Covers(t, k, line)
    requires Fills(t, k + |line.value.1|, rest) && whole == ThenLines(line.value.1, rest)
    ensures Fills(t, k, whole)
  {
    if rest.Ok? {
      PairsJoin(t, k, line.value.1, rest.value.0);
    }
  }

  /** A LOWER_ROW section of d rows, 2 <= d <= 46341, that is read stores one value at each
      pair i < j < d, in row-by-row order. */
  lemma TriangleSection(split: seq<seq<string>>, pos: nat, d: int, number: NumberParser)
    requires pos <= |split| && 2 <= d <= 46341
    ensures TriangleLines(split, pos, d, Start, 0, number).Ok? ==>
      Pairs(TriangleLines(split, pos, d, Start, 0, number).value.0) == TriangleCells(d)
  {
    WalksTriangle(d);
    RemainingCount(d);
    TriangleLinesWalk(split, pos, d, TriangleCells(d), 0, number);
  }

  /** Once every cell of the walk is filled, a line is read without failing only when it
      holds no number, and a surplus number throws "Invalid distance matrix". */
  lemma {:induction false} SurplusToken(d: int, t: seq<(int, int)>, items: seq<string>, j: nat, number: NumberParser)
    requires d != 0 && WalksThrough(d, t)
    ensures TriangleLineFrom(d, items, j, After(t, |t|), number).Ok? <==> TokensFrom(items, j) == []
    ensures TokensFrom(items, j) != [] && RowValuesFrom(items, j, number).Ok? ==>
      TriangleLineFrom(d, items, j, After(t, |t|), number) == Err(Parsing("Invalid distance matrix"))
    decreases |items| - j
  {
    if j < |items| {
      SurplusToken(d, t, items, j + 1, number);
    }
  }

  /** The numbers a line stores are the numbers of its non-empty items, in order. */
  lemma {:induction false} TriangleLineValues(d: int, items: seq<string>, j: nat, c: Cursor, number: NumberParser)
    requires d != 0
    ensures TriangleLineFrom(d, items, j, c, number).Ok? ==>
      RowValuesFrom(items, j, number) == Ok(Values(TriangleLineFrom(d, items, j, c, number).value.1))
    decreases |items| - j
  {
    if j < |items| && TriangleLineFrom(d, items, j, c, number).Ok? {
      if items[j] == "" {
        TriangleLineValues(d, items, j + 1, c, number);
      } else {
        var step := Step(d, c);
        TriangleLineValues(d, items, j + 1, step.value.0, number);
        var ws := TriangleLineFrom(d, items, j, c, number).value.1;
        var rest := TriangleLineFrom(d, items, j + 1, step.value.0, number).value.1;
        var w := Write(step.value.1.0, step.value.1.1, number(items[j]).value);
        assert ws == [w] + rest;
        ValuesConcat([w], rest);
        assert Values([w]) == [number(items[j]).value];
      }
    } else if j >= |items| {
      assert Values([]) == [];
    }
  }
}
