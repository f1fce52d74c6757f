/** The index walk of `parseSymmetricalDistanceMatrix`: the counters `from` and `to` that
    choose the pair each token of a `LOWER_ROW` section is stored at, and the 32-bit count of
    tokens the reader waits for. The walk visits the pairs above the diagonal row by row:
    (0,1), (0,2), …, (0,n-1), (1,2), …, (n-2,n-1). */
module TriangleWalk {
  import opened Outcomes

  /** The cells (row, a), (row, a+1), …, (row, d-1). */
  function RowCells(d: int, row: int, a: int): seq<(int, int)> {
    seq(if a < d then d - a else 0, k => (row, a + k))
  }

  /** The rows a, a+1, …, d-2 of the cells above the diagonal of a d×d matrix. */
  function CellsFrom(d: int, a: int): seq<(int, int)>
    decreases d - a
  {
    if a >= d - 1 then [] else RowCells(d, a, a + 1) + CellsFrom(d, a + 1)
  }

  /** Every cell above the diagonal, row by row. */
  function TriangleCells(d: int): seq<(int, int)> {
    CellsFrom(d, 0)
  }

  /** Cell `p` comes before cell `q` row by row. */
  predicate Before(p: (int, int), q: (int, int)) {
    p.0 < q.0 || (p.0 == q.0 && p.1 < q.1)
  }

  /** The cells from row `a` on are exactly the pairs i < j < d with i at least `a`. */
  lemma {:induction false} CellsFromMembers(d: int, a: int, c: (int, int))
    ensures c in CellsFrom(d, a) <==> a <= c.0 < c.1 < d
    decreases d - a
  {
    if a < d - 1 {
      CellsFromMembers(d, a + 1, c);
      if c.0 == a && a + 1 <= c.1 < d {
        assert RowCells(d, a, a + 1)[c.1 - a - 1] == c;
      }
    }
  }

  /** The cells from row `a` on are in row-by-row order, so none is listed twice. */
  lemma {:induction false} CellsFromOrdered(d: int, a: int)
    ensures forall p, q :: 0 <= p < q < |CellsFrom(d, a)| ==> Before(CellsFrom(d, a)[p], CellsFrom(d, a)[q])
    decreases d - a
  {
    if a < d - 1 {
      CellsFromOrdered(d, a + 1);
      var row, rest := RowCells(d, a, a + 1), CellsFrom(d, a + 1);
      var all := CellsFrom(d, a);
      forall p, q | 0 <= p < q < |all|
        ensures Before(all[p], all[q])
      {
        if q >= |row| {
          CellsFromMembers(d, a + 1, all[q]);
          assert all[q] == rest[q - |row|];
          if p >= |row| {
            assert all[p] == rest[p - |row|];
          }
        }
      }
    }
  }

  /** From row `a` on there are m(m-1)/2 cells, m being the number of rows left. */
  lemma {:induction false} CellsFromCount(d: int, a: int)
    requires a <= d
    ensures 2 * |CellsFrom(d, a)| == (d - a) * (d - a - 1)
    decreases d - a
  {
    if a < d - 1 {
      CellsFromCount(d, a + 1);
      var m := d - a;
      assert (m - 1) * (m - 2) + 2 * (m - 1) == m * (m - 1);
    }
  }

  /** The cells above the diagonal: each pair i < j < d, in row-by-row order, d(d-1)/2 of them. */
  lemma TriangleCellsShape(d: int)
    requires d >= 0
    ensures forall c :: c in TriangleCells(d) <==> 0 <= c.0 < c.1 < d
    ensures forall p, q :: 0 <= p < q < |TriangleCells(d)| ==> Before(TriangleCells(d)[p], TriangleCells(d)[q])
    ensures 2 * |TriangleCells(d)| == d * (d - 1)
  {
    forall c {
      CellsFromMembers(d, 0, c);
    }
    CellsFromOrdered(d, 0);
    CellsFromCount(d, 0);
  }

  // ---------------------------------------------------------------------------------------
  // The counters

  /** `from` and `to` before a token is stored. */
  datatype Cursor = Cursor(from: int, to: int)

  const Start := Cursor(0, 0)

  /** Java's `%` on `int`: the remainder has the sign of the dividend. */
  function JavaRem(a: int, b: int): int
    requires b != 0
  {
    if a >= 0 then a % b else 0 - ((0 - a) % b)
  }

  /** Java's `/` on `int` by a positive divisor: the quotient is rounded toward zero. */
  function JavaDiv(a: int, b: int): int
    requires b > 0
  {
    if a >= 0 then a / b else 0 - ((0 - a) / b)
  }

  /** A 32-bit `int` result: the value wrapped into [-2^31, 2^31). */
  function Wrap32(x: int): int {
    (x + 0x8000_0000) % 0x1_0000_0000 - 0x8000_0000
  }

  /** One token: `to` skips the diagonal at the start, a finished row moves to the next one
      with `to = (from + 1) % dimensions`, and a `to` of 0 after that is rejected (`None`,
      "Invalid distance matrix"); otherwise the pair the token is stored at and the counters
      after it. */
  function Step(d: int, c: Cursor): Option<(Cursor, (int, int))>
    requires d != 0
  {
    var to1 := if c.from == c.to then c.to + 1 else c.to;
    var from2 := if to1 >= d then c.from + 1 else c.from;
    var to2 := if to1 >= d then JavaRem(from2 + 1, d) else to1;
    if to2 == 0 then None else Some((Cursor(from2, to2 + 1), (from2, to2)))
  }

  /** `dimensions*(dimensions-1)/2` in 32-bit arithmetic: the number of tokens the reader
      waits for. */
  function Remaining(d: int): int {
    JavaDiv(Wrap32(d * (d - 1)), 2)
  }

  /** The counters the walk reaches: the start, or a row `from` with `to` past the diagonal. */
  predicate Reachable(d: int, c: Cursor) {
    c == Start || (0 <= c.from <= d - 2 && c.from < c.to <= d)
  }

  /** The cells still to be filled from the counters `c`, in the order the walk fills them. */
  function Pending(d: int, c: Cursor): seq<(int, int)> {
    RowCells(d, c.from, if c.from == c.to then c.to + 1 else c.to) + CellsFrom(d, c.from + 1)
  }

  /** At the start every cell above the diagonal is still to be filled. */
  lemma StartPending(d: int)
    requires d >= 2
    ensures Reachable(d, Start) && Pending(d, Start) == TriangleCells(d)
  {
  }

  /** A row of cells is its first cell followed by the rest of the row. */
  lemma RowCellsFirst(d: int, row: int, a: int)
    requires a < d
    ensures RowCells(d, row, a) == [(row, a)] + RowCells(d, row, a + 1)
  {
    assert RowCells(d, row, a)[1..] == RowCells(d, row, a + 1);
  }

  /** A step stores the token at the next cell to fill and leaves the others pending; it is
      rejected exactly when no cell is left. */
  lemma StepPending(d: int, c: Cursor)
    requires d >= 2 && Reachable(d, c)
    ensures Step(d, c).None? <==> Pending(d, c) == []
    ensures Step(d, c).Some? ==> Step(d, c).value.1 == Pending(d, c)[0]
    ensures Step(d, c).Some? ==> Reachable(d, Step(d, c).value.0)
    ensures Step(d, c).Some? ==> Pending(d, Step(d, c).value.0) == Pending(d, c)[1..]
  {
    var to1 := if c.from == c.to then c.to + 1 else c.to;
    if to1 < d {
      StepInRow(d, c, to1);
    } else if c.from + 2 < d {
      StepNextRow(d, c, to1);
    } else {
      StepPastEnd(d, c, to1);
    }
  }

  lemma StepInRow(d: int, c: Cursor, to1: int)
    requires d >= 2 && Reachable(d, c) && to1 == (if c.from == c.to then c.to + 1 else c.to) && to1 < d
    ensures Step(d, c) == Some((Cursor(c.from, to1 + 1), (c.from, to1)))
    ensures Reachable(d, Cursor(c.from, to1 + 1))
    ensures Pending(d, c) == [(c.from, to1)] + Pending(d, Cursor(c.from, to1 + 1))
  {
    RowCellsFirst(d, c.from, to1);
  }

  lemma StepNextRow(d: int, c: Cursor, to1: int)
    requires d >= 2 && Reachable(d, c) && to1 == (if c.from == c.to then c.to + 1 else c.to)
    requires to1 >= d && c.from + 2 < d
    ensures Step(d, c) == Some((Cursor(c.from + 1, c.from + 3), (c.from + 1, c.from + 2)))
    ensures Reachable(d, Cursor(c.from + 1, c.from + 3))
    ensures Pending(d, c) == [(c.from + 1, c.from + 2)] + Pending(d, Cursor(c.from + 1, c.from + 3))
  {
    assert JavaRem(c.from + 2, d) == c.from + 2;
    RowCellsFirst(d, c.from + 1, c.from + 2);
    assert RowCells(d, c.from, to1) == [];
  }

  lemma StepPastEnd(d: int, c: Cursor, to1: int)
    requires d >= 2 && Reachable(d, c) && to1 == (if c.from == c.to then c.to + 1 else c.to)
    requires to1 >= d && c.from + 2 >= d
    ensures Step(d, c).None? && Pending(d, c) == []
  {
    assert c.from + 2 == d;
    assert JavaRem(c.from + 2, d) == 0;
    assert RowCells(d, c.from, to1) == [];
  }

  /** The counters once the first `k` cells of `t` are filled: just past the last of them. */
  function After(t: seq<(int, int)>, k: nat): Cursor
    requires k <= |t|
  {
    if k == 0 then Start else Cursor(t[k - 1].0, t[k - 1].1 + 1)
  }

  /** The counters after `k` tokens are stored. */
  function Position(d: int, k: nat): Cursor
    requires k <= |TriangleCells(d)|
  {
    After(TriangleCells(d), k)
  }

  /** From counters with a pending cell, the counters just past that cell have the rest
      pending. */
  lemma Advance(d: int, c: Cursor)
    requires d >= 2 && Reachable(d, c) && Pending(d, c) != []
    ensures Reachable(d, Cursor(Pending(d, c)[0].0, Pending(d, c)[0].1 + 1))
    ensures Pending(d, Cursor(Pending(d, c)[0].0, Pending(d, c)[0].1 + 1)) == Pending(d, c)[1..]
  {
    StepPending(d, c);
  }

  /** After `k` tokens the counters are reachable and the cells from the k-th on are pending. */
  lemma {:induction false} PositionPending(d: int, k: nat)
    requires d >= 2 && k <= |TriangleCells(d)|
    ensures Reachable(d, Position(d, k)) && Pending(d, Position(d, k)) == TriangleCells(d)[k..]
  {
    if k == 0 {
      StartPending(d);
    } else {
      var t := TriangleCells(d);
      PositionPending(d, k - 1);
      var p := Pending(d, Position(d, k - 1));
      assert p[0] == t[k - 1] && p[1..] == t[k..];
      Advance(d, Position(d, k - 1));
    }
  }

  /** The walk from the start: the token after `k` stored ones goes to the k-th cell above
      the diagonal, and once every cell is filled the next token is rejected. */
  lemma StepAt(d: int, k: nat)
    requires d >= 2 && k <= |TriangleCells(d)|
    ensures k < |TriangleCells(d)| ==>
      Step(d, After(TriangleCells(d), k)) == Some((After(TriangleCells(d), k + 1), TriangleCells(d)[k]))
    ensures k == |TriangleCells(d)| ==> Step(d, After(TriangleCells(d), k)).None?
  {
    PositionPending(d, k);
    StepPending(d, Position(d, k));
  }

  /** The walk visits the cells of `t` in order and stops after the last one. */
  predicate WalksThrough(d: int, t: seq<(int, int)>)
    requires d != 0
  {
    (forall k {:trigger Step(d, After(t, k))} :: 0 <= k < |t| ==> Step(d, After(t, k)) == Some((After(t, k + 1), t[k]))) &&
    Step(d, After(t, |t|)).None?
  }

  /** The walk of a matrix of d rows, d >= 2, visits the cells above the diagonal in
      row-by-row order. */
  lemma WalksTriangle(d: int)
    requires d >= 2
    ensures WalksThrough(d, TriangleCells(d))
  {
    var t := TriangleCells(d);
    forall k | 0 <= k < |t|
      ensures Step(d, After(t, k)) == Some((After(t, k + 1), t[k]))
    {
      StepAt(d, k);
    }
    StepAt(d, |t|);
  }

  /** A value that fits in 32 bits is not changed by wrapping. */
  lemma Wrap32Small(x: int)
    requires -0x8000_0000 <= x < 0x8000_0000
    ensures Wrap32(x) == x
  {
  }

  /** Multiplying by a natural number keeps an inequality. */
  lemma {:induction false} MulLe(a: nat, b: int, c: int)
    requires b <= c
    ensures a * b <= a * c
  {
    if a > 0 {
      MulLe(a - 1, b, c);
      assert a * b == (a - 1) * b + b;
      assert a * c == (a - 1) * c + c;
    }
  }

  /** The product of the count fits in 32 bits up to 46341 rows. */
  lemma ProductBound(d: int)
    requires 0 <= d <= 46341
    ensures 0 <= d * (d - 1) <= 46341 * 46340
  {
    if d > 0 {
      MulLe(d, 0, d - 1);
      MulLe(d, d - 1, 46340);
      MulLe(46340, d, 46341);
    }
  }

  /** Up to 46341 rows the 32-bit count does not overflow and is the number of cells above
      the diagonal; the reader then stops exactly when every cell is filled. */
  lemma RemainingCount(d: int)
    requires 0 <= d <= 46341
    ensures Remaining(d) == |TriangleCells(d)|
  {
    TriangleCellsShape(d);
    ProductBound(d);
    Wrap32Small(d * (d - 1));
  }

  /** With no row or a single row nothing is read. */
  lemma RemainingSmall(d: int)
    requires 0 <= d <= 1
    ensures Remaining(d) == 0
  {
    assert d * (d - 1) == 0;
  }

  /** For 65536 rows the 32-bit product wraps around and the count is negative: no token is
      waited for. */
  lemma RemainingWraps()
    ensures Remaining(65536) < 0
  {
    assert 65536 * 65535 == 0x1_0000_0000 - 65536;
  }
}
