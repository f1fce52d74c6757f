/** The `java.lang.String` and `java.lang.Integer` operations the instance parser relies on:
    `startsWith` (Dafny's prefix test `<=`), `split` on a literal separator and on `\\s+`,
    `replace` of one character by nothing, and `Integer.parseInt`. */
module JavaStrings {
  import opened Outcomes

  // ---------------------------------------------------------------------------------------
  // split on a literal separator

  /** `sep` occurs in `s` at index `k`. */
  predicate OccursAt(s: string, sep: string, k: nat) {
    k + |sep| <= |s| && s[k..k + |sep|] == sep
  }

  /** `sep` occurs somewhere in `s`. */
  predicate Occurs(s: string, sep: string) {
    exists k: nat :: k <= |s| && OccursAt(s, sep, k)
  }

  /** The pieces of `s` between the occurrences of `sep`, found from left to right without
      overlap, before any trailing empty pieces are removed. */
  function Pieces(s: string, sep: string): (r: seq<string>)
    requires sep != []
    ensures |r| >= 1
    decreases |s|
  {
    if |s| < |sep| then [s]
    else if s[..|sep|] == sep then [""] + Pieces(s[|sep|..], sep)
    else
      var rest := Pieces(s[1..], sep);
      [[s[0]] + rest[0]] + rest[1..]
  }

  /** The pieces glued back together with `sep` between them. */
  function Join(ps: seq<string>, sep: string): string
    requires |ps| >= 1
  {
    if |ps| == 1 then ps[0] else ps[0] + sep + Join(ps[1..], sep)
  }

  /** Gluing the pieces back together gives the string that was split. */
  lemma {:induction false} PiecesJoin(s: string, sep: string)
    requires sep != []
    ensures Join(Pieces(s, sep), sep) == s
    decreases |s|
  {
    if |s| < |sep| {
    } else if s[..|sep|] == sep {
      PiecesJoin(s[|sep|..], sep);
      JoinEmptyFirst(Pieces(s[|sep|..], sep), sep);
      Rejoin(s, |sep|);
    } else {
      var rest := Pieces(s[1..], sep);
      PiecesJoin(s[1..], sep);
      JoinFirst(rest, s[0], sep);
      Rejoin(s, 1);
    }
  }

  /** A string is its first `k` characters followed by the rest. */
  lemma Rejoin(s: string, k: nat)
    requires k <= |s|
    ensures s[..k] + s[k..] == s
  {
  }

  /** An empty first piece contributes only the separator. */
  lemma JoinEmptyFirst(ps: seq<string>, sep: string)
    requires |ps| >= 1
    ensures Join([""] + ps, sep) == sep + Join(ps, sep)
  {
    assert ([""] + ps)[1..] == ps;
  }

  /** A character put in front of the first piece is put in front of the whole. */
  lemma JoinFirst(ps: seq<string>, c: char, sep: string)
    requires |ps| >= 1
    ensures Join([[c] + ps[0]] + ps[1..], sep) == [c] + Join(ps, sep)
  {
    var qs := [[c] + ps[0]] + ps[1..];
    assert qs[1..] == ps[1..];
  }

  /** The first piece is where `s` starts. */
  lemma {:induction false} FirstPiecePrefix(s: string, sep: string)
    requires sep != []
    ensures Pieces(s, sep)[0] <= s
    decreases |s|
  {
    if |s| >= |sep| && s[..|sep|] != sep {
      FirstPiecePrefix(s[1..], sep);
    }
  }

  /** No piece holds the separator: the split found every occurrence. */
  lemma {:induction false} PiecesFree(s: string, sep: string)
    requires sep != []
    ensures forall i :: 0 <= i < |Pieces(s, sep)| ==> !Occurs(Pieces(s, sep)[i], sep)
    decreases |s|
  {
    var ps := Pieces(s, sep);
    if |s| < |sep| {
      assert ps == [s];
    } else if s[..|sep|] == sep {
      PiecesFree(s[|sep|..], sep);
      assert ps == [""] + Pieces(s[|sep|..], sep);
    } else {
      var rest := Pieces(s[1..], sep);
      PiecesFree(s[1..], sep);
      assert ps == [[s[0]] + rest[0]] + rest[1..];
      FirstPiecePrefix(s[1..], sep);
      FirstFree(s, sep, rest[0]);
    }
  }

  /** The first piece, a head character on a separator-free prefix of the rest, holds no
      separator when `s` does not start with one. */
  lemma FirstFree(s: string, sep: string, first: string)
    requires sep != [] && |s| >= |sep| && s[..|sep|] != sep
    requires first <= s[1..] && !Occurs(first, sep)
    ensures !Occurs([s[0]] + first, sep)
  {
    var whole := [s[0]] + first;
    forall k: nat | OccursAt(whole, sep, k)
      ensures false
    {
      if k > 0 {
        assert first[k - 1..k - 1 + |sep|] == whole[k..k + |sep|];
        assert OccursAt(first, sep, k - 1);
      }
    }
  }

  /** A string free of the separator is one piece. */
  lemma {:induction false} PiecesOfFree(s: string, sep: string)
    requires sep != [] && !Occurs(s, sep)
    ensures Pieces(s, sep) == [s]
    decreases |s|
  {
    if |s| >= |sep| {
      assert !OccursAt(s, sep, 0);
      forall k: nat | OccursAt(s[1..], sep, k)
        ensures false
      {
        assert s[1..][k..k + |sep|] == s[k + 1..k + 1 + |sep|];
        assert OccursAt(s, sep, k + 1);
      }
      PiecesOfFree(s[1..], sep);
      assert [s[0]] + s[1..] == s;
    }
  }

  /** The pieces with trailing empty ones removed. */
  function StripTrailing(ps: seq<string>): (r: seq<string>)
    ensures r <= ps
    ensures forall k :: |r| <= k < |ps| ==> ps[k] == ""
    ensures r != [] ==> r[|r| - 1] != ""
  {
    if ps == [] || ps[|ps| - 1] != "" then ps else StripTrailing(ps[..|ps| - 1])
  }

  /** `s.split(sep)` for a separator without regular-expression metacharacters: the pieces,
      trailing empty ones removed, or `s` alone when `sep` does not occur. */
  function Split(s: string, sep: string): seq<string>
    requires sep != []
  {
    var ps := Pieces(s, sep);
    if |ps| == 1 then ps else StripTrailing(ps)
  }

  /** A header line `key + sep + value`, with no separator starting in the key and none in a
      non-empty value, splits into exactly the key and the value. */
  lemma HeaderSplit(key: string, sep: string, value: string)
    requires sep != [] && sep[0] !in key && !Occurs(value, sep) && value != ""
    ensures Split(key + sep + value, sep) == [key, value]
  {
    assert key + sep + value == key + (sep + value);
    KeyPieces(key, sep, sep + value);
    assert (sep + value)[..|sep|] == sep && (sep + value)[|sep|..] == value;
    PiecesOfFree(value, sep);
    assert Pieces(sep + value, sep) == ["", value];
    assert key + "" == key;
    assert Pieces(key + sep + value, sep) == [key, value];
  }

  /** A key in which no separator can start is the head of the first piece. */
  lemma {:induction false} KeyPieces(key: string, sep: string, rest: string)
    requires sep != [] && sep[0] !in key && sep <= rest
    ensures Pieces(key + rest, sep) == [key + Pieces(rest, sep)[0]] + Pieces(rest, sep)[1..]
    decreases |key|
  {
    var tail := Pieces(rest, sep);
    if key == [] {
      assert key + rest == rest;
      assert key + tail[0] == tail[0];
      assert tail == [tail[0]] + tail[1..];
    } else {
      var s := key + rest;
      assert s[..|sep|][0] == key[0];
      assert s[1..] == key[1..] + rest;
      KeyPieces(key[1..], sep, rest);
      var inner := Pieces(s[1..], sep);
      assert inner == [key[1..] + tail[0]] + tail[1..];
      assert Pieces(s, sep) == [[s[0]] + inner[0]] + inner[1..];
      assert [s[0]] + inner[0] == key + tail[0];
    }
  }

  /** A string in which the separator's first character never appears holds no separator. */
  lemma NoStartFree(s: string, sep: string)
    requires sep != [] && sep[0] !in s
    ensures !Occurs(s, sep)
  {
  }

  /** Words in which no separator can start are the pieces of their join. */
  lemma {:induction false} PiecesOfJoin(ws: seq<string>, sep: string)
    requires sep != [] && |ws| >= 1
    requires forall i :: 0 <= i < |ws| ==> sep[0] !in ws[i]
    ensures Pieces(Join(ws, sep), sep) == ws
    decreases |ws|
  {
    if |ws| == 1 {
      NoStartFree(ws[0], sep);
      PiecesOfFree(ws[0], sep);
    } else {
      var rest := Join(ws[1..], sep);
      PiecesOfJoin(ws[1..], sep);
      assert Join(ws, sep) == ws[0] + (sep + rest);
      KeyPieces(ws[0], sep, sep + rest);
      assert (sep + rest)[..|sep|] == sep && (sep + rest)[|sep|..] == rest;
      assert Pieces(sep + rest, sep) == [""] + ws[1..];
      assert ws[0] + "" == ws[0];
      assert ws == [ws[0]] + ws[1..];
    }
  }

  /** `split` reads back words joined by the separator when the last word is not empty. */
  lemma SplitOfJoin(ws: seq<string>, sep: string)
    requires sep != [] && |ws| >= 1 && ws[|ws| - 1] != ""
    requires forall i :: 0 <= i < |ws| ==> sep[0] !in ws[i]
    ensures Split(Join(ws, sep), sep) == ws
  {
    PiecesOfJoin(ws, sep);
  }

  /** A line without the separator splits into itself alone. */
  lemma SplitOfFree(s: string, sep: string)
    requires sep != [] && !Occurs(s, sep)
    ensures Split(s, sep) == [s]
  {
    PiecesOfFree(s, sep);
  }

  // ---------------------------------------------------------------------------------------
  // split on "\\s+"

  /** The characters of the regular-expression class `\s`. */
  predicate IsSpace(c: char) {
    c == ' ' || c == '\t' || c == '\n' || c == '\U{B}' || c == '\U{C}' || c == '\r'
  }

  /** `s` without its leading whitespace. */
  function SkipSpaces(s: string): (r: string)
    ensures |r| <= |s| && r <= s[|s| - |r|..]
    ensures r != [] ==> !IsSpace(r[0])
  {
    if s != [] && IsSpace(s[0]) then SkipSpaces(s[1..]) else s
  }

  /** The pieces of `s` between maximal runs of whitespace, before trailing empty pieces are
      removed; a run at the very start leaves an empty first piece. */
  function SpacePieces(s: string): (r: seq<string>)
    ensures |r| >= 1
    decreases |s|
  {
    if s == [] then [""]
    else if IsSpace(s[0]) then [""] + SpacePieces(SkipSpaces(s))
    else
      var rest := SpacePieces(s[1..]);
      [[s[0]] + rest[0]] + rest[1..]
  }

  /** `s.split("\\s+")`. */
  function SplitSpaces(s: string): seq<string> {
    var ps := SpacePieces(s);
    if |ps| == 1 then ps else StripTrailing(ps)
  }

  /** The characters of `s` outside the class `\s`, in order. */
  function Visible(s: string): string {
    if s == [] then [] else (if IsSpace(s[0]) then [] else [s[0]]) + Visible(s[1..])
  }

  /** The pieces in a row. */
  function Concat(ps: seq<string>): string {
    if ps == [] then [] else ps[0] + Concat(ps[1..])
  }

  lemma {:induction false} VisibleSkip(s: string)
    ensures Visible(SkipSpaces(s)) == Visible(s)
  {
    if s != [] && IsSpace(s[0]) {
      VisibleSkip(s[1..]);
    }
  }

  /** The characters of the pieces, at piece `i` and place `k`. */
  predicate NoSpaces(ps: seq<string>) {
    forall i, k :: 0 <= i < |ps| && 0 <= k < |ps[i]| ==> !IsSpace(ps[i][k])
  }

  /** The pieces hold no whitespace. */
  lemma {:induction false} SpacePiecesVisible(s: string)
    ensures NoSpaces(SpacePieces(s))
    decreases |s|
  {
    if s == [] {
    } else if IsSpace(s[0]) {
      SpacePiecesVisible(SkipSpaces(s));
    } else {
      var rest := SpacePieces(s[1..]);
      SpacePiecesVisible(s[1..]);
      var ps := SpacePieces(s);
      assert ps == [[s[0]] + rest[0]] + rest[1..];
      forall i, k | 0 <= i < |ps| && 0 <= k < |ps[i]|
        ensures !IsSpace(ps[i][k])
      {
        if i == 0 && k > 0 {
          assert ps[0][k] == rest[0][k - 1];
        } else if i > 0 {
          assert ps[i] == rest[i];
        }
      }
    }
  }

  /** Together the pieces are the non-whitespace characters of `s` in order. */
  lemma {:induction false} SpacePiecesConcat(s: string)
    ensures Concat(SpacePieces(s)) == Visible(s)
    decreases |s|
  {
    if s == [] {
    } else if IsSpace(s[0]) {
      var skipped := SkipSpaces(s);
      SpacePiecesConcat(skipped);
      VisibleSkip(s);
      ConcatFirst(SpacePieces(skipped), "");
    } else {
      var rest := SpacePieces(s[1..]);
      SpacePiecesConcat(s[1..]);
      ConcatFirst(rest[1..], [s[0]] + rest[0]);
      ConcatFirst(rest[1..], rest[0]);
      assert [rest[0]] + rest[1..] == rest;
      assert Visible(s) == [s[0]] + Visible(s[1..]);
    }
  }

  /** A piece in front adds its characters in front. */
  lemma ConcatFirst(ps: seq<string>, p: string)
    ensures Concat([p] + ps) == p + Concat(ps)
  {
    assert ([p] + ps)[1..] == ps;
  }

  /** Removing trailing empty pieces keeps the concatenation. */
  lemma {:induction false} ConcatStrip(ps: seq<string>)
    ensures Concat(StripTrailing(ps)) == Concat(ps)
    decreases |ps|
  {
    if ps != [] && ps[|ps| - 1] == "" {
      ConcatStrip(ps[..|ps| - 1]);
      ConcatSnoc(ps[..|ps| - 1], "");
      assert ps == ps[..|ps| - 1] + [""];
    }
  }

  lemma {:induction false} ConcatSnoc(ps: seq<string>, p: string)
    ensures Concat(ps + [p]) == Concat(ps) + p
    decreases |ps|
  {
    if ps != [] {
      ConcatSnoc(ps[1..], p);
      assert (ps + [p])[1..] == ps[1..] + [p];
    }
  }

  /** The items of `s.split("\\s+")` hold no whitespace, and together they are the
      non-whitespace characters of `s` in order. */
  lemma SplitSpacesShape(s: string)
    ensures NoSpaces(SplitSpaces(s))
    ensures Concat(SplitSpaces(s)) == Visible(s)
  {
    SpacePiecesVisible(s);
    SpacePiecesConcat(s);
    ConcatStrip(SpacePieces(s));
  }

  // ---------------------------------------------------------------------------------------
  // replace and parseInt

  /** `s.replace(c, "")` for a one-character target. */
  function RemoveAll(s: string, c: char): (r: string)
    ensures c !in r
    ensures c !in s ==> r == s
  {
    if s == [] then [] else (if s[0] == c then [] else [s[0]]) + RemoveAll(s[1..], c)
  }

  predicate IsDigit(c: char) {
    '0' <= c <= '9'
  }

  /** The value of a string of decimal digits. */
  function DigitsValue(s: string): nat
    requires forall i :: 0 <= i < |s| ==> IsDigit(s[i])
  {
    if s == [] then 0
    else
      var last := s[|s| - 1];
      assert IsDigit(last);
      DigitsValue(s[..|s| - 1]) * 10 + (last as int - '0' as int)
  }

  const MinInt: int := -0x8000_0000
  const MaxInt: int := 0x7FFF_FFFF

  /** `Integer.parseInt(s)` over ASCII digits: an optional sign and at least one digit
      `0`-`9`, with a value that fits in 32 bits; `None` is the `NumberFormatException`. */
  function ParseInt(s: string): (r: Option<int>)
    ensures r.Some? ==> MinInt <= r.value <= MaxInt
  {
    if s == [] then None
    else
      var signed := s[0] == '-' || s[0] == '+';
      var digits := if signed then s[1..] else s;
      if digits == [] || exists i :: 0 <= i < |digits| && !IsDigit(digits[i]) then None
      else
        var v: int := if s[0] == '-' then 0 - DigitsValue(digits) else DigitsValue(digits);
        if MinInt <= v <= MaxInt then Some(v) else None
  }

  /** The decimal digits of `n`, without leading zeros. */
  function Decimal(n: nat): (r: string)
    ensures r != [] && forall i :: 0 <= i < |r| ==> IsDigit(r[i])
  {
    (if n < 10 then [] else Decimal(n / 10)) + [('0' as int + n % 10) as char]
  }

  /** `Integer.toString(n)`. */
  function IntToString(n: int): string {
    if n < 0 then "-" + Decimal(-n) else Decimal(n)
  }

  lemma {:induction false} DecimalValue(n: nat)
    ensures DigitsValue(Decimal(n)) == n
  {
    var d := Decimal(n);
    assert d[..|d| - 1] == if n < 10 then [] else Decimal(n / 10);
    if n >= 10 {
      DecimalValue(n / 10);
    }
  }

  /** `Integer.parseInt` on a digit string, with or without a minus sign: its value when it fits. */
  lemma ParseDigits(d: string)
    requires d != [] && forall i :: 0 <= i < |d| ==> IsDigit(d[i])
    ensures ParseInt(d) == if DigitsValue(d) <= MaxInt then Some(DigitsValue(d)) else None
    ensures ParseInt("-" + d) == if MinInt <= 0 - DigitsValue(d) then Some(0 - DigitsValue(d)) else None
  {
    assert IsDigit(d[0]);
    assert ("-" + d)[0] == '-' && ("-" + d)[1..] == d;
  }

  /** `Integer.parseInt` reads back every 32-bit value `Integer.toString` writes. */
  lemma ParseIntRoundTrip(n: int)
    requires MinInt <= n <= MaxInt
    ensures ParseInt(IntToString(n)) == Some(n)
  {
    if n < 0 {
      DecimalValue(-n);
      ParseDigits(Decimal(-n));
    } else {
      DecimalValue(n);
      ParseDigits(Decimal(n));
    }
  }
}
