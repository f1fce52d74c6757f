/** `SimpleMatrixGraph`: a directed graph over a fixed vertex collection whose edges sit
    in an n-by-n matrix, one cell per ordered pair of vertex indices, `None` standing
    for the source's `null` cell. Edges are enumerated row by row. */
module MatrixGraphs {
  import opened Outcomes
  import opened Digraph

  /** A matrix cell (row, column). */
  datatype Cell = Cell(row: int, col: int)

  /** Row-major order on cells. */
  predicate Before(c: Cell, d: Cell) {
    c.row < d.row || (c.row == d.row && c.col < d.col)
  }

  /** The edges in the first `n` cells of row `i`, by column. */
  function RowEdges<E>(a: array2<Option<E>>, i: int, n: int): seq<E>
    requires 0 <= i < a.Length0 && 0 <= n <= a.Length1
    reads a
  {
    if n == 0 then []
    else RowEdges(a, i, n - 1) + (if a[i, n - 1].Some? then [a[i, n - 1].value] else [])
  }

  /** The occupied cells among the first `n` of row `i`, by column. */
  ghost function RowCells<E>(a: array2<Option<E>>, i: int, n: int): seq<Cell>
    requires 0 <= i < a.Length0 && 0 <= n <= a.Length1
    reads a
  {
    if n == 0 then []
    else RowCells(a, i, n - 1) + (if a[i, n - 1].Some? then [Cell(i, n - 1)] else [])
  }

  /** The edges of the first `k` rows, row after row. */
  function AllEdges<E>(a: array2<Option<E>>, k: int): seq<E>
    requires 0 <= k <= a.Length0
    reads a
  {
    if k == 0 then [] else AllEdges(a, k - 1) + RowEdges(a, k - 1, a.Length1)
  }

  /** The occupied cells of the first `k` rows, in row-major order. */
  ghost function AllCells<E>(a: array2<Option<E>>, k: int): seq<Cell>
    requires 0 <= k <= a.Length0
    reads a
  {
    if k == 0 then [] else AllCells(a, k - 1) + RowCells(a, k - 1, a.Length1)
  }

  /** `cells` lists the edges `es` cell by cell: the same length, each edge the content of
      its cell, and the cells in strictly increasing row-major order (so each at most once). */
  ghost predicate Lists<E>(a: array2<Option<E>>, es: seq<E>, cells: seq<Cell>)
    reads a
  {
    && |es| == |cells|
    && (forall p :: 0 <= p < |cells| ==>
          0 <= cells[p].row < a.Length0 && 0 <= cells[p].col < a.Length1
          && a[cells[p].row, cells[p].col] == Some(es[p]))
    && (forall p, q :: 0 <= p < q < |cells| ==> Before(cells[p], cells[q]))
  }

  /** The first `n` cells of row `i` are listed in order, and every occupied one is listed. */
  lemma {:induction false} RowEdgesListed<E>(a: array2<Option<E>>, i: int, n: int)
    requires 0 <= i < a.Length0 && 0 <= n <= a.Length1
    ensures Lists(a, RowEdges(a, i, n), RowCells(a, i, n))
    ensures forall p :: 0 <= p < |RowCells(a, i, n)| ==> RowCells(a, i, n)[p].row == i && RowCells(a, i, n)[p].col < n
    ensures forall j :: 0 <= j < n && a[i, j].Some? ==> Cell(i, j) in RowCells(a, i, n)
  {
    if n > 0 {
      RowEdgesListed(a, i, n - 1);
    }
  }

  /** The first `k` rows are listed in row-major order, and every occupied cell is listed. */
  lemma {:induction false} AllEdgesListed<E>(a: array2<Option<E>>, k: int)
    requires 0 <= k <= a.Length0
    ensures Lists(a, AllEdges(a, k), AllCells(a, k))
    ensures forall p :: 0 <= p < |AllCells(a, k)| ==> AllCells(a, k)[p].row < k
    ensures forall i, j :: 0 <= i < k && 0 <= j < a.Length1 && a[i, j].Some? ==> Cell(i, j) in AllCells(a, k)
  {
    if k > 0 {
      AllEdgesListed(a, k - 1);
      RowEdgesListed(a, k - 1, a.Length1);
      var c1, c2 := AllCells(a, k - 1), RowCells(a, k - 1, a.Length1);
      var e1, e2 := AllEdges(a, k - 1), RowEdges(a, k - 1, a.Length1);
      assert AllCells(a, k) == c1 + c2 && AllEdges(a, k) == e1 + e2;
      forall p, q | 0 <= p < q < |c1 + c2|
        ensures Before((c1 + c2)[p], (c1 + c2)[q])
      {
        if q >= |c1| && p < |c1| {
          assert c1[p].row < k - 1 && c2[q - |c1|].row == k - 1;
        }
      }
    }
  }

  /** The numbering of the vertex collection that the matrix indices follow: each item
      is numbered with a position at which it occurs (its last). */
  function Numbering<V(==,!new)>(items: seq<V>): (m: map<V, nat>)
    ensures forall x :: x in m <==> x in items
    ensures forall x :: x in m ==> m[x] < |items| && items[m[x]] == x
  {
    if items == [] then map[]
    else Numbering(items[..|items| - 1])[items[|items| - 1] := |items| - 1]
  }

  class SimpleMatrixGraph<V(==,!new)> {
    const items: seq<V>
    const verticesCount: nat
    const verticesMap: map<V, nat>
    const edges: array2<Option<Edge<V>>>

    /** The matrix is n-by-n for the n items, each vertex is numbered with a position
        where it occurs, and every edge sits in the cell of its endpoints' numbers. */
    ghost predicate Valid()
      reads edges
    {
      && verticesCount == |items| && edges.Length0 == verticesCount && edges.Length1 == verticesCount
      && (forall x :: x in verticesMap ==> verticesMap[x] < verticesCount && items[verticesMap[x]] == x)
      && forall i, j :: 0 <= i < verticesCount && 0 <= j < verticesCount && edges[i, j].Some? ==>
           Placed(edges[i, j].value, i, j)
    }

    ghost predicate Placed(e: Edge<V>, i: int, j: int) {
      e.source in verticesMap && verticesMap[e.source] == i && e.target in verticesMap && verticesMap[e.target] == j
    }

    /** The constructor: n = the number of items, and an n-by-n matrix of empty cells. */
    constructor (items: seq<V>)
      ensures this.items == items && verticesCount == |items| && verticesMap == Numbering(items)
      ensures fresh(edges) && Valid()
      ensures forall i, j :: 0 <= i < verticesCount && 0 <= j < verticesCount ==> edges[i, j].None?
    {
      this.items := items;
      verticesCount := |items|;
      verticesMap := Numbering(items);
      edges := new Option<Edge<V>>[|items|, |items|]((i, j) => None);
    }

    /** `getAllEdges`: the edges of the occupied cells, row by row and by column within a row. */
    method GetAllEdges() returns (r: seq<Edge<V>>)
      requires Valid()
      ensures r == AllEdges(edges, verticesCount)
    {
      r := [];
      var from := 0;
      while from < verticesCount
        invariant 0 <= from <= verticesCount && r == AllEdges(edges, from)
      {
        var row := GetRow(from);
        r := r + row;
        from := from + 1;
      }
    }

    /** The inner loop of `getAllEdges` and the loop of `getEdgesFrom`: the edges of one row. */
    method GetRow(v: nat) returns (r: seq<Edge<V>>)
      requires Valid() && v < verticesCount
      ensures r == RowEdges(edges, v, verticesCount)
    {
      r := [];
      var i := 0;
      while i < verticesCount
        invariant 0 <= i <= verticesCount && r == RowEdges(edges, v, i)
      {
        var e := edges[v, i];
        if e.Some? {
          r := r + [e.value];
        }
        i := i + 1;
      }
    }

    /** `addEdge`: puts the edge in the cell of its endpoints' indices, replacing what was
        there; every other cell is unchanged. */
    method AddEdge(edge: Edge<V>)
      requires Valid() && edge.source in verticesMap && edge.target in verticesMap
      modifies edges
      ensures Valid()
      ensures edges[verticesMap[edge.source], verticesMap[edge.target]] == Some(edge)
      ensures forall i, j :: (0 <= i < verticesCount && 0 <= j < verticesCount
                && !(i == verticesMap[edge.source] && j == verticesMap[edge.target])) ==> edges[i, j] == old(edges[i, j])
    {
      var from := verticesMap[edge.source];
      var to := verticesMap[edge.target];
      edges[from, to] := Some(edge);
    }

    /** `emptyGraph`: a new graph on the same items with no edge. */
    method EmptyGraph() returns (g: SimpleMatrixGraph<V>)
      ensures fresh(g) && fresh(g.edges) && g.Valid() && g.items == items
      ensures AllEdges(g.edges, g.verticesCount) == []
    {
      g := new SimpleMatrixGraph(items);
      NoEdges(g.edges, g.verticesCount);
    }

    /** `getEdgesFrom`: the edges in the row of `vertex`, by target index. */
    method GetEdgesFrom(vertex: V) returns (r: seq<Edge<V>>)
      requires Valid() && vertex in verticesMap
      ensures r == RowEdges(edges, verticesMap[vertex], verticesCount)
      ensures forall e :: e in r ==> e.source == vertex
    {
      var v := verticesMap[vertex];
      r := GetRow(v);
      RowFrom(v, verticesCount);
    }

    /** Every edge of row `v` starts at a vertex numbered `v`. */
    lemma {:induction false} RowFrom(v: int, n: int)
      requires Valid() && 0 <= v < verticesCount && 0 <= n <= verticesCount
      ensures forall e :: e in RowEdges(edges, v, n) ==> e.source in verticesMap && verticesMap[e.source] == v
    {
      if n > 0 {
        RowFrom(v, n - 1);
      }
    }
  }

  /** A matrix of empty cells has no edge. */
  lemma {:induction false} NoEdges<E>(a: array2<Option<E>>, k: int)
    requires 0 <= k <= a.Length0
    requires forall i, j :: 0 <= i < a.Length0 && 0 <= j < a.Length1 ==> a[i, j].None?
    ensures AllEdges(a, k) == []
  {
    if k > 0 {
      NoEdges(a, k - 1);
      NoRowEdges(a, k - 1, a.Length1);
    }
  }

  lemma {:induction false} NoRowEdges<E>(a: array2<Option<E>>, i: int, n: int)
    requires 0 <= i < a.Length0 && 0 <= n <= a.Length1
    requires forall j :: 0 <= j < a.Length1 ==> a[i, j].None?
    ensures RowEdges(a, i, n) == []
  {
    if n > 0 {
      NoRowEdges(a, i, n - 1);
    }
  }
}
