/** Sequence helpers shared by the nested loops of the converters, and the set helper shared
    by the loops that take the elements of a set one at a time. */
module Sequences {
  /** The rows one after the other. */
  function Flatten<T>(rows: seq<seq<T>>): seq<T> {
    if rows == [] then [] else Flatten(rows[..|rows| - 1]) + rows[|rows| - 1]
  }

  lemma {:induction false} FlattenHas<T>(rows: seq<seq<T>>, i: int, x: T)
    requires 0 <= i < |rows| && x in rows[i]
    ensures x in Flatten(rows)
  {
    if i < |rows| - 1 {
      FlattenHas(rows[..|rows| - 1], i, x);
    }
  }

  lemma {:induction false} FlattenFrom<T>(rows: seq<seq<T>>, x: T)
    requires x in Flatten(rows)
    ensures exists k :: 0 <= k < |rows| && x in rows[k]
  {
    if x !in rows[|rows| - 1] {
      FlattenFrom(rows[..|rows| - 1], x);
      var k :| 0 <= k < |rows| - 1 && x in rows[..|rows| - 1][k];
      assert x in rows[k];
    }
  }

  /** Concatenation regroups. */
  lemma Associative<T>(a: seq<T>, b: seq<T>, c: seq<T>)
    ensures a + (b + c) == a + b + c
  {
  }

  /** Moving one element from the elements still to handle to the handled ones keeps the
      two a partition of `all`, and leaves fewer to handle. */
  lemma MoveOne<T>(seen: set<T>, rest: set<T>, all: set<T>, x: T)
    requires seen + rest == all && seen !! rest && x in rest
    ensures (seen + {x}) + (rest - {x}) == all && (seen + {x}) !! (rest - {x})
    ensures |rest - {x}| < |rest|
  {
  }
}
