/** The vehicle-routing instance as the converters and the parser see it. Java `Double`
    quantities (coordinates, demands, distances, the best known solution) are integers. */
module Vrp {
  import opened Outcomes

  /** `VrpProblemMetric`. */
  datatype Metric = Unknown | Explicit | Euclidean

  datatype Location = Location(latitude: int, longitude: int)

  datatype Client = Client(id: int, amount: int, location: Location)

  datatype Depot = Depot(id: int, location: Location)

  datatype Vehicle = Vehicle(id: int, capacity: int)

  /** The contents of a `DistanceMatrix` (or, when `symmetrical`, a `SymmetricalDistanceMatrix`)
      of the given dimension: the value last stored for each ordered pair with `setDistance`.
      How the matrix answers `getDistance` is not part of this model; the readers take that
      lookup as a parameter. */
  datatype DistanceMatrix = DistanceMatrix(dimensions: int, symmetrical: bool, entries: map<(int, int), int>)

  /** `setDistance(from, to, d)`: stores `d` for the ordered pair and changes nothing else. */
  function SetDistance(m: DistanceMatrix, from: int, to: int, d: int): (r: DistanceMatrix)
    ensures r.dimensions == m.dimensions && r.symmetrical == m.symmetrical
    ensures (from, to) in r.entries && r.entries[(from, to)] == d
  {
    m.(entries := m.entries[(from, to) := d])
  }

  /** A fresh matrix with nothing stored. */
  function EmptyMatrix(dimensions: int, symmetrical: bool): DistanceMatrix {
    DistanceMatrix(dimensions, symmetrical, map[])
  }

  datatype VrpProblem = VrpProblem(
    name: Option<string>,
    bestSolution: int,
    dimensions: int,
    metric: Metric,
    clients: seq<Client>,
    vehicles: seq<Vehicle>,
    depot: Depot,
    distanceMatrix: Option<DistanceMatrix>)

  /** The matrix lookup `getDistance(from, to)` of a distance matrix. */
  type Lookup = (DistanceMatrix, int, int) -> int

  /** The client ids are pairwise distinct. */
  predicate DistinctIds(cs: seq<Client>) {
    forall a, b :: 0 <= a < b < |cs| ==> cs[a].id != cs[b].id
  }

  /** One `setDistance` call. */
  datatype Write = Write(from: int, to: int, value: int)

  /** The stored entries after a sequence of `setDistance` calls, the last one for a pair winning. */
  function Apply(m: map<(int, int), int>, ws: seq<Write>): map<(int, int), int> {
    if ws == [] then m
    else
      var w := ws[|ws| - 1];
      Apply(m, ws[..|ws| - 1])[(w.from, w.to) := w.value]
  }

  /** One more write stores its value for its pair. */
  lemma ApplySnoc(m: map<(int, int), int>, ws: seq<Write>, w: Write)
    ensures Apply(m, ws + [w]) == Apply(m, ws)[(w.from, w.to) := w.value]
  {
    assert (ws + [w])[..|ws|] == ws;
  }

  /** Making the calls `a` and then the calls `b` is making the calls `a + b`. */
  lemma {:induction false} ApplyConcat(m: map<(int, int), int>, a: seq<Write>, b: seq<Write>)
    ensures Apply(Apply(m, a), b) == Apply(m, a + b)
    decreases |b|
  {
    if b == [] {
      assert a + b == a;
    } else {
      var w := b[|b| - 1];
      var b' := b[..|b| - 1];
      ApplyConcat(m, a, b');
      assert a + b == (a + b') + [w];
      ApplySnoc(m, a + b', w);
    }
  }

  /** `ws` writes the pair `k` somewhere. */
  predicate Writes(ws: seq<Write>, k: (int, int)) {
    exists w :: w in ws && (w.from, w.to) == k
  }

  /** When every write of `k` stores `v`, the pair ends up holding `v` if it is written at all,
      and keeps what it held otherwise. */
  lemma {:induction false} ApplyValue(m: map<(int, int), int>, ws: seq<Write>, k: (int, int), v: int)
    requires forall w :: w in ws && (w.from, w.to) == k ==> w.value == v
    ensures Writes(ws, k) ==> k in Apply(m, ws) && Apply(m, ws)[k] == v
    ensures !Writes(ws, k) ==> (k in Apply(m, ws) <==> k in m) && (k in m ==> Apply(m, ws)[k] == m[k])
    decreases |ws|
  {
    if ws != [] {
      var w := ws[|ws| - 1];
      var init := ws[..|ws| - 1];
      assert ws == init + [w];
      ApplyValue(m, init, k, v);
      if Writes(ws, k) && (w.from, w.to) != k {
        var u :| u in ws && (u.from, u.to) == k;
        assert u in init;
      }
    }
  }

  /** Every pair `Apply` stores is either stored in `m` or written. */
  lemma {:induction false} ApplyDomain(m: map<(int, int), int>, ws: seq<Write>, k: (int, int))
    ensures k in Apply(m, ws) <==> k in m || Writes(ws, k)
    decreases |ws|
  {
    if ws != [] {
      var init := ws[..|ws| - 1];
      assert ws == init + [ws[|ws| - 1]];
      ApplyDomain(m, init, k);
      if Writes(ws, k) && (ws[|ws| - 1].from, ws[|ws| - 1].to) != k {
        var u :| u in ws && (u.from, u.to) == k;
        assert u in init;
      }
    }
  }

  /** Two more writes store their values, the second one winning on a shared pair. */
  lemma ApplyTwo(m: map<(int, int), int>, ws: seq<Write>, u: Write, w: Write)
    ensures Apply(m, ws + [u, w]) == Apply(m, ws)[(u.from, u.to) := u.value][(w.from, w.to) := w.value]
  {
    assert (ws + [u, w])[..|ws| + 1] == ws + [u];
    ApplySnoc(m, ws, u);
  }
}
