/** The header lines of an instance file, as `VrpProblemParser` reads them: `NAME`, `COMMENT`,
    `DIMENSION`, `CAPACITY`, `EDGE_WEIGHT_TYPE` and `EDGE_WEIGHT_FORMAT` (the specification
    part of the TSPLIB95 format, section 1.1). */
module VrpHeaders {
  import opened Outcomes
  import opened Vrp
  import opened JavaStrings

  /** What parsing throws: a `ParsingException` with its message, or the runtime exception
      a malformed input runs into. */
  datatype ParseError =
    | Parsing(message: string)
    | NumberFormat       // `Integer.parseInt` or `Double.parseDouble` rejects a token
    | IndexOutOfBounds   // an array index past the end (a missing header value, a short section)
    | NullPointer        // a read past the last line, or a section that never appeared

  /** `EdgeWeightFormat`. */
  datatype Format = UnknownFormat | LowerRow | FullMatrix

  /** `Double.parseDouble`, with doubles read as integers: the value, or `None` for the
      `NumberFormatException`. */
  type NumberParser = string -> Option<int>

  /** `line.split(sep)[1]`. */
  function Field(line: string, sep: string): Result<string, ParseError>
    requires sep != []
  {
    var parts := Split(line, sep);
    if |parts| < 2 then Err(IndexOutOfBounds) else Ok(parts[1])
  }

  /** `parseName`. */
  function ParseName(line: string): Result<string, ParseError> {
    Field(line, " : ")
  }

  /** `parseDimensions` and `parseCapacity`: the header value read by `Integer.parseInt`. */
  function ParseCount(line: string): Result<int, ParseError> {
    match Field(line, " : ")
    case Err(e) => Err(e)
    case Ok(text) => if ParseInt(text).Some? then Ok(ParseInt(text).value) else Err(NumberFormat)
  }

  /** `parseBestKnownSolution`: the text after the last `:` with every `)` removed, read as a
      number; 0 when it is not one. */
  function ParseBestKnownSolution(line: string, number: NumberParser): Result<int, ParseError> {
    var parts := Split(line, ":");
    if parts == [] then Err(IndexOutOfBounds)
    else
      var best := number(RemoveAll(parts[|parts| - 1], ')'));
      Ok(if best.Some? then best.value else 0)
  }

  /** `parseMetrics`. */
  function ParseMetrics(line: string): Result<Metric, ParseError> {
    match Field(line, " : ")
    case Err(e) => Err(e)
    case Ok(text) =>
      if "EXPLICIT" <= text then Ok(Explicit)
      else if "EUC_2D" <= text then Ok(Euclidean)
      else Err(Parsing("Not supported problem metrics"))
  }

  /** `parseEdgeWeightFormat`: note the separator `": "`, without the leading space. */
  function ParseEdgeWeightFormat(line: string): Result<Format, ParseError> {
    match Field(line, ": ")
    case Err(e) => Err(e)
    case Ok(text) =>
      if text == "FULL_MATRIX" then Ok(FullMatrix)
      else if text == "LOWER_ROW" then Ok(LowerRow)
      else Ok(UnknownFormat)
  }

  // ---------------------------------------------------------------------------------------
  // What the header functions read

  /** A header `key : value` whose key holds no space and whose value is non-empty and holds
      no `" : "` yields the value as its name and, read as an integer, as its count. */
  lemma HeaderValue(key: string, value: string)
    requires ' ' !in key && value != "" && !Occurs(value, " : ")
    ensures ParseName(key + " : " + value) == Ok(value)
    ensures ParseCount(key + " : " + value) ==
      if ParseInt(value).Some? then Ok(ParseInt(value).value) else Err(NumberFormat)
  {
    HeaderSplit(key, " : ", value);
  }

  /** A header with nothing after `" : "` throws `ArrayIndexOutOfBoundsException`: the empty
      trailing piece is dropped by `split`. */
  lemma HeaderWithoutValue(key: string)
    requires ' ' !in key
    ensures ParseName(key + " : ") == Err(IndexOutOfBounds)
    ensures ParseCount(key + " : ") == Err(IndexOutOfBounds)
    ensures ParseMetrics(key + " : ") == Err(IndexOutOfBounds)
  {
    var line := key + " : ";
    KeyPieces(key, " : ", " : ");
    assert " : "[..3] == " : " && " : "[3..] == "";
    assert Pieces(" : ", " : ") == ["", ""];
    assert key + "" == key;
    assert Pieces(line, " : ") == [key, ""];
    assert [key, ""][..1] == [key];
    assert StripTrailing([key, ""]) == StripTrailing([key]);
    assert Split(line, " : ") == StripTrailing([key]);
  }

  /** `EDGE_WEIGHT_TYPE : value` is Explicit when the value starts with `EXPLICIT`, Euclidean
      when it starts with `EUC_2D`, and is rejected otherwise. */
  lemma MetricsOf(value: string)
    requires value != "" && !Occurs(value, " : ")
    ensures ParseMetrics("EDGE_WEIGHT_TYPE : " + value) ==
      if "EXPLICIT" <= value then Ok(Explicit)
      else if "EUC_2D" <= value then Ok(Euclidean)
      else Err(Parsing("Not supported problem metrics"))
  {
    assert "EDGE_WEIGHT_TYPE : " + value == "EDGE_WEIGHT_TYPE" + " : " + value;
    HeaderSplit("EDGE_WEIGHT_TYPE", " : ", value);
  }

  /** `EDGE_WEIGHT_FORMAT : value` is FULL_MATRIX or LOWER_ROW exactly for those two words,
      and UNKNOWN for any other value. */
  lemma FormatOf(value: string)
    requires value != "" && !Occurs(value, ": ")
    ensures ParseEdgeWeightFormat("EDGE_WEIGHT_FORMAT : " + value) ==
      if value == "FULL_MATRIX" then Ok(FullMatrix)
      else if value == "LOWER_ROW" then Ok(LowerRow)
      else Ok(UnknownFormat)
  {
    assert "EDGE_WEIGHT_FORMAT : " + value == "EDGE_WEIGHT_FORMAT " + ": " + value;
    HeaderSplit("EDGE_WEIGHT_FORMAT ", ": ", value);
  }

  /** A `COMMENT` line never makes the parser throw: a value that does not read as a number
      gives 0. */
  lemma BestKnownSolutionTotal(line: string, number: NumberParser)
    requires "COMMENT" <= line
    ensures ParseBestKnownSolution(line, number).Ok?
  {
    var ps := Pieces(line, ":");
    assert line[0] == 'C';
    assert ps[0] != "";
  }
}
