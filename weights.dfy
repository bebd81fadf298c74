/** The weight store of GrafoDijkstra as values: the map from edge key to
    weight, its invariant, the lookup with its default, and the weights the
    seeded uniform assignment draws. */
module Weights {
  import opened BaseGraph

  /** The weight of an edge that has no entry in the store. */
  const DefaultWeight: real := 1.0

  /** Every stored weight is strictly positive. */
  predicate Positive(w: map<EdgeKey, real>)
  {
    forall k :: k in w ==> w[k] > 0.0
  }

  /** The store's invariant: positive weights, each keyed by an edge of the
      graph (so an edge carries at most one weight). */
  ghost predicate WeightsValid(g: Grafo, w: map<EdgeKey, real>)
  {
    Positive(w) && w.Keys <= Keys(g)
  }

  /** `self._w.get(k, 1.0)`. */
  function Lookup(w: map<EdgeKey, real>, k: EdgeKey): (r: real)
    ensures Positive(w) ==> r > 0.0
    ensures k in w ==> r == w[k]
    ensures k !in w ==> r == DefaultWeight
  {
    if k in w then w[k] else DefaultWeight
  }

  /** The weight Dijkstra uses on the step from u to v. */
  function Weight(g: Grafo, w: map<EdgeKey, real>, u: NodeId, v: NodeId): real
  {
    Lookup(w, KeyOf(g.dirigido, u, v))
  }

  /** In an undirected graph the weight does not depend on the direction. */
  lemma WeightSymmetric(g: Grafo, w: map<EdgeKey, real>, u: NodeId, v: NodeId)
    requires !g.dirigido
    ensures Weight(g, w, u, v) == Weight(g, w, v, u)
  {
    KeyCanonical(g.dirigido, u, v, v, u);
  }

  /** `random.uniform(a, b)` given the unit draw `u` of the generator. */
  function Uniform(a: real, b: real, u: real): real
  {
    a + (b - a) * u
  }

  lemma MulPos(x: real, y: real)
    requires x > 0.0 && y > 0.0
    ensures x * y > 0.0
  {}

  lemma MulNonneg(x: real, y: real)
    requires x >= 0.0 && y >= 0.0
    ensures x * y >= 0.0
  {}

  lemma UniformAscending(a: real, b: real, u: real)
    requires 0.0 <= u < 1.0 && a <= b
    ensures a <= Uniform(a, b, u) <= b
  {
    MulNonneg(b - a, u);
    MulNonneg(b - a, 1.0 - u);
    assert Uniform(a, b, u) == b - (b - a) * (1.0 - u);
  }

  lemma UniformAboveLow(a: real, b: real, u: real)
    requires 0.0 <= u < 1.0 && b < a
    ensures b < Uniform(a, b, u)
  {
    MulPos(a - b, 1.0 - u);
    assert Uniform(a, b, u) == b + (a - b) * (1.0 - u);
  }

  lemma UniformBelowHigh(a: real, b: real, u: real)
    requires 0.0 <= u < 1.0 && b < a
    ensures Uniform(a, b, u) <= a
  {
    MulNonneg(a - b, u);
    assert Uniform(a, b, u) == a - (a - b) * u;
  }

  /** A draw lies between the two bounds (b excluded when b < a, as
      `a + (b - a) * random()` with `random()` in [0, 1) gives), hence it is
      positive when both bounds are. */
  lemma UniformBounds(a: real, b: real, u: real)
    requires 0.0 <= u < 1.0
    ensures a <= b ==> a <= Uniform(a, b, u) <= b
    ensures b < a ==> b < Uniform(a, b, u) <= a
    ensures a > 0.0 && b > 0.0 ==> Uniform(a, b, u) > 0.0
  {
    if a <= b {
      UniformAscending(a, b, u);
    } else {
      UniformAboveLow(a, b, u);
      UniformBelowHigh(a, b, u);
    }
  }

  /** The store after the first n edges of g, in `aristas()` order, have been
      given their uniform draws, the i-th edge taking the i-th draw. */
  function AssignFirst(g: Grafo, w: map<EdgeKey, real>, a: real, b: real, unit: nat -> real, n: nat): map<EdgeKey, real>
    requires n <= |g.aristas|
  {
    if n == 0 then w
    else AssignFirst(g, w, a, b, unit, n - 1)[EdgeKeyOf(g, g.aristas[n - 1]) := Uniform(a, b, unit(n - 1))]
  }

  /** The keys of the first n edges. */
  function DrawnKeys(g: Grafo, n: nat): set<EdgeKey>
    requires n <= |g.aristas|
  {
    set i | 0 <= i < n :: EdgeKeyOf(g, g.aristas[i])
  }

  /** After the first n draws, edge i < n holds its own draw: the keys are
      distinct, so no later draw overwrites it. */
  lemma {:induction false} AssignFirstHit(g: Grafo, w: map<EdgeKey, real>, a: real, b: real, unit: nat -> real, n: nat, i: nat)
    requires Valid(g) && i < n <= |g.aristas|
    ensures EdgeKeyOf(g, g.aristas[i]) in AssignFirst(g, w, a, b, unit, n)
    ensures AssignFirst(g, w, a, b, unit, n)[EdgeKeyOf(g, g.aristas[i])] == Uniform(a, b, unit(i))
  {
    if i < n - 1 {
      AssignFirstHit(g, w, a, b, unit, n - 1, i);
      assert EdgeKeyOf(g, g.aristas[i]) != EdgeKeyOf(g, g.aristas[n - 1]);
    }
  }

  /** The draws add exactly the keys of the drawn edges and leave every
      other entry as it was. */
  lemma {:induction false} AssignFirstFrame(g: Grafo, w: map<EdgeKey, real>, a: real, b: real, unit: nat -> real, n: nat)
    requires n <= |g.aristas|
    ensures AssignFirst(g, w, a, b, unit, n).Keys == w.Keys + DrawnKeys(g, n)
    ensures forall k :: k in w && k !in DrawnKeys(g, n) ==> AssignFirst(g, w, a, b, unit, n)[k] == w[k]
  {
    if n > 0 {
      AssignFirstFrame(g, w, a, b, unit, n - 1);
      assert DrawnKeys(g, n) == DrawnKeys(g, n - 1) + {EdgeKeyOf(g, g.aristas[n - 1])};
    }
  }

  /** The keys drawn for all edges are the keys of the graph. */
  lemma DrawnAll(g: Grafo)
    ensures DrawnKeys(g, |g.aristas|) == Keys(g)
  {
    forall k | k in Keys(g) ensures k in DrawnKeys(g, |g.aristas|) {
      var e :| e in g.aristas && EdgeKeyOf(g, e) == k;
      var i :| 0 <= i < |g.aristas| && g.aristas[i] == e;
    }
  }

  /** Once every edge has been drawn, the store holds a weight for exactly
      the edges of g, and each is positive when both bounds are. */
  lemma AssignAllCoversEdges(g: Grafo, w: map<EdgeKey, real>, a: real, b: real, unit: nat -> real)
    requires Valid(g) && WeightsValid(g, w)
    requires a > 0.0 && b > 0.0 && forall i :: 0.0 <= unit(i) < 1.0
    ensures AssignFirst(g, w, a, b, unit, |g.aristas|).Keys == Keys(g)
    ensures WeightsValid(g, AssignFirst(g, w, a, b, unit, |g.aristas|))
  {
    var n := |g.aristas|;
    AssignFirstFrame(g, w, a, b, unit, n);
    DrawnAll(g);
    var r := AssignFirst(g, w, a, b, unit, n);
    assert r.Keys == Keys(g) by {
      assert r.Keys == w.Keys + DrawnKeys(g, n) && w.Keys <= DrawnKeys(g, n);
    }
    forall k | k in r ensures r[k] > 0.0 {
      DrawnPositive(g, w, a, b, unit, n, k);
    }
  }

  /** A drawn key holds its edge's draw, positive when both bounds are. */
  lemma DrawnPositive(g: Grafo, w: map<EdgeKey, real>, a: real, b: real, unit: nat -> real, n: nat, k: EdgeKey)
    requires Valid(g) && n <= |g.aristas| && k in DrawnKeys(g, n)
    requires a > 0.0 && b > 0.0 && forall i :: 0.0 <= unit(i) < 1.0
    ensures k in AssignFirst(g, w, a, b, unit, n) && AssignFirst(g, w, a, b, unit, n)[k] > 0.0
  {
    var i :| 0 <= i < n && EdgeKeyOf(g, g.aristas[i]) == k;
    AssignFirstHit(g, w, a, b, unit, n, i);
    UniformBounds(a, b, unit(i));
  }
}
