/** What the tables `Dijkstra` returns mean: a finite distance is the weight
    of a lightest walk from the source, `inf` means no walk exists, and the
    parent links trace such a lightest walk back to the source. */
module ShortestPaths {
  import opened Wrappers
  import opened BaseGraph
  import opened Weights
  import opened Dijkstra

  /** p is a walk: a non-empty sequence of nodes, each consecutive pair
      joined by an edge as `vecinos` reads edges. */
  ghost predicate IsWalk(g: Grafo, p: seq<NodeId>)
  {
    |p| >= 1 && forall i :: 0 <= i < |p| - 1 ==> IsVecino(g, p[i], p[i + 1])
  }

  /** The sum of the weights of the steps of p. */
  function WalkWeight(g: Grafo, w: map<EdgeKey, real>, p: seq<NodeId>): real
    requires |p| >= 1
  {
    if |p| == 1 then 0.0
    else WalkWeight(g, w, p[..|p| - 1]) + Weight(g, w, p[|p| - 2], p[|p| - 1])
  }

  /** A walk from s to v. */
  ghost predicate WalkFromTo(g: Grafo, s: NodeId, v: NodeId, p: seq<NodeId>)
  {
    IsWalk(g, p) && p[0] == s && p[|p| - 1] == v
  }

  /** With positive weights, a walk weighs at least nothing. */
  lemma {:induction false} WalkWeightNonneg(g: Grafo, w: map<EdgeKey, real>, p: seq<NodeId>)
    requires Positive(w) && |p| >= 1
    ensures WalkWeight(g, w, p) >= 0.0
  {
    if |p| > 1 {
      WalkWeightNonneg(g, w, p[..|p| - 1]);
    }
  }

  /** No walk from the source is lighter than the distance of its last
      node, which is therefore finite. */
  lemma {:induction false} NoShorterWalk(g: Grafo, w: map<EdgeKey, real>, s: NodeId, dist: map<NodeId, Dist>,
                                         parent: map<NodeId, Option<NodeId>>, p: seq<NodeId>)
    requires s in dist && dist[s] == Fin(0.0) && Relaxed(g, w, dist)
    requires IsWalk(g, p) && p[0] == s
    ensures p[|p| - 1] in dist && dist[p[|p| - 1]].Fin?
    ensures dist[p[|p| - 1]].v <= WalkWeight(g, w, p)
  {
    if |p| > 1 {
      var q := p[..|p| - 1];
      assert IsWalk(g, q) by {
        forall i | 0 <= i < |q| - 1 ensures IsVecino(g, q[i], q[i + 1]) {
          assert q[i] == p[i] && q[i + 1] == p[i + 1];
        }
      }
      NoShorterWalk(g, w, s, dist, parent, q);
      assert IsVecino(g, p[|p| - 2], p[|p| - 1]);
    }
  }

  /** Appending a neighbour of its last node extends a walk, adding the
      weight of the new step. */
  lemma ExtendWalk(g: Grafo, w: map<EdgeKey, real>, q: seq<NodeId>, v: NodeId)
    requires IsWalk(g, q) && IsVecino(g, q[|q| - 1], v)
    ensures IsWalk(g, q + [v])
    ensures WalkWeight(g, w, q + [v]) == WalkWeight(g, w, q) + Weight(g, w, q[|q| - 1], v)
  {
    assert (q + [v])[..|q|] == q;
  }

  /** p is the chain of parent links from the source down to its last
      node: each node after the first has the one before it as parent, and
      every node has a finite distance. */
  ghost predicate ParentChain(s: NodeId, dist: map<NodeId, Dist>, parent: map<NodeId, Option<NodeId>>, p: seq<NodeId>)
  {
    && |p| >= 1 && p[0] == s
    && (forall i :: 0 <= i < |p| ==> p[i] in dist && dist[p[i]].Fin?)
    && (forall i :: 0 < i < |p| ==> p[i] in parent && parent[p[i]] == Some(p[i - 1]))
  }

  /** The distances along p strictly increase. */
  ghost predicate Increasing(dist: map<NodeId, Dist>, p: seq<NodeId>)
  {
    && (forall i :: 0 <= i < |p| ==> p[i] in dist && dist[p[i]].Fin?)
    && (forall i, j :: 0 <= i < j < |p| ==> dist[p[i]].v < dist[p[j]].v)
  }

  /** Appending a child of the last node to a parent chain gives a parent
      chain; when the child is farther, the distances keep increasing. */
  lemma ExtendChain(s: NodeId, dist: map<NodeId, Dist>, parent: map<NodeId, Option<NodeId>>, q: seq<NodeId>, v: NodeId)
    requires ParentChain(s, dist, parent, q) && Increasing(dist, q)
    requires v in dist && dist[v].Fin? && dist[q[|q| - 1]].v < dist[v].v
    requires v in parent && parent[v] == Some(q[|q| - 1])
    ensures ParentChain(s, dist, parent, q + [v]) && Increasing(dist, q + [v])
  {
    var p := q + [v];
    forall i, j | 0 <= i < j < |p| ensures dist[p[i]].v < dist[p[j]].v {
      if j == |q| && i < |q| - 1 {
        assert dist[q[i]].v < dist[q[|q| - 1]].v;
      }
    }
  }

  /** The nodes strictly closer to the source than distance d. */
  ghost function Closer(dist: map<NodeId, Dist>, d: real): set<NodeId>
  {
    set x | x in dist && dist[x].Fin? && dist[x].v < d
  }

  lemma ProperSubsetSmaller<T>(a: set<T>, b: set<T>)
    requires a < b
    ensures |a| < |b|
  {
    assert b == a + (b - a) && a * (b - a) == {};
    assert b - a != {};
  }

  /** Following the parent links back from a node with a finite distance
      reaches the source; the distances strictly increase along the way, so
      the links form no cycle. */
  lemma ParentChainTo(g: Grafo, w: map<EdgeKey, real>, s: NodeId, dist: map<NodeId, Dist>,
                      parent: map<NodeId, Option<NodeId>>, v: NodeId) returns (p: seq<NodeId>)
    requires TablesOk(g, s, dist, parent) && Tight(g, w, dist, parent) && Positive(w)
    requires v in dist && dist[v].Fin?
    ensures ParentChain(s, dist, parent, p) && Increasing(dist, p) && p[|p| - 1] == v
    decreases |Closer(dist, dist[v].v)|
  {
    if v == s {
      p := [s];
    } else {
      assert v in parent;
      var u := parent[v].value;
      assert u in dist && dist[u].Fin? && dist[v] == Fin(dist[u].v + Weight(g, w, u, v));
      assert Closer(dist, dist[u].v) < Closer(dist, dist[v].v) by {
        assert u in Closer(dist, dist[v].v) && u !in Closer(dist, dist[u].v);
      }
      ProperSubsetSmaller(Closer(dist, dist[u].v), Closer(dist, dist[v].v));
      var q := ParentChainTo(g, w, s, dist, parent, u);
      ExtendChain(s, dist, parent, q, v);
      p := q + [v];
    }
  }

  /** A parent chain from the source is a walk whose weight is the distance
      of its last node. */
  lemma {:induction false} ChainIsWalk(g: Grafo, w: map<EdgeKey, real>, s: NodeId, dist: map<NodeId, Dist>,
                                       parent: map<NodeId, Option<NodeId>>, p: seq<NodeId>)
    requires dist.Keys == parent.Keys && s in dist && dist[s] == Fin(0.0) && Tight(g, w, dist, parent)
    requires ParentChain(s, dist, parent, p)
    ensures IsWalk(g, p) && WalkWeight(g, w, p) == dist[p[|p| - 1]].v
  {
    if |p| > 1 {
      var q := p[..|p| - 1];
      assert ParentChain(s, dist, parent, q);
      ChainIsWalk(g, w, s, dist, parent, q);
      assert parent[p[|p| - 1]] == Some(q[|q| - 1]);
      ExtendWalk(g, w, q, p[|p| - 1]);
      assert q + [p[|p| - 1]] == p;
    }
  }

  /** The distances `Dijkstra` returns are the shortest-path distances: a
      node's distance is finite exactly when a walk from the source reaches
      it, no such walk is lighter, and one is exactly as heavy. */
  lemma DistanceIsShortest(g: Grafo, w: map<EdgeKey, real>, s: NodeId, dist: map<NodeId, Dist>,
                           parent: map<NodeId, Option<NodeId>>, v: NodeId)
    requires Final(g, w, s, dist, parent) && Positive(w) && v in dist
    ensures dist[v].Fin? <==> exists p :: WalkFromTo(g, s, v, p)
    ensures dist[v].Fin? ==>
      && (forall p :: WalkFromTo(g, s, v, p) ==> dist[v].v <= WalkWeight(g, w, p))
      && (exists p :: WalkFromTo(g, s, v, p) && WalkWeight(g, w, p) == dist[v].v)
  {
    if dist[v].Fin? {
      var p := ParentChainTo(g, w, s, dist, parent, v);
      ChainIsWalk(g, w, s, dist, parent, p);
    }
    forall p | WalkFromTo(g, s, v, p) ensures dist[v].Fin? && dist[v].v <= WalkWeight(g, w, p) {
      NoShorterWalk(g, w, s, dist, parent, p);
    }
  }

  /** Any two tables that `Dijkstra` may return for the same graph and
      source hold the same distances, whichever parents ties chose: running
      it twice on an unchanged graph gives the same distance table. */
  lemma DistancesDetermined(g: Grafo, w: map<EdgeKey, real>, s: NodeId,
                            dist1: map<NodeId, Dist>, parent1: map<NodeId, Option<NodeId>>,
                            dist2: map<NodeId, Dist>, parent2: map<NodeId, Option<NodeId>>)
    requires Positive(w) && Final(g, w, s, dist1, parent1) && Final(g, w, s, dist2, parent2)
    ensures dist1 == dist2
  {
    forall v | v in dist1 ensures v in dist2 && dist1[v] == dist2[v] {
      SameDistance(g, w, s, dist1, parent1, dist2, parent2, v);
    }
  }

  lemma SameDistance(g: Grafo, w: map<EdgeKey, real>, s: NodeId,
                     dist1: map<NodeId, Dist>, parent1: map<NodeId, Option<NodeId>>,
                     dist2: map<NodeId, Dist>, parent2: map<NodeId, Option<NodeId>>, v: NodeId)
    requires Positive(w) && Final(g, w, s, dist1, parent1) && Final(g, w, s, dist2, parent2)
    requires v in dist1
    ensures v in dist2 && dist1[v] == dist2[v]
  {
    DistanceIsShortest(g, w, s, dist1, parent1, v);
    DistanceIsShortest(g, w, s, dist2, parent2, v);
    if dist1[v].Fin? {
      var p1 :| WalkFromTo(g, s, v, p1) && WalkWeight(g, w, p1) == dist1[v].v;
      var p2 :| WalkFromTo(g, s, v, p2) && WalkWeight(g, w, p2) == dist2[v].v;
      assert dist1[v].v <= WalkWeight(g, w, p2) && dist2[v].v <= WalkWeight(g, w, p1);
    }
  }
}
