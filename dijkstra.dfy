/** The shortest-path computation of `GrafoDijkstra.Dijkstra`: the distance
    and parent tables filled by a lazy-deletion priority queue, and what
    they mean once the queue is empty. */
module Dijkstra {
  import opened Wrappers
  import opened BaseGraph
  import opened Weights

  /** A tentative distance: `math.inf` or a finite value. */
  datatype Dist = Inf | Fin(v: real)

  /** A queue entry `(d, id)`. */
  datatype Entry = Entry(d: real, id: NodeId)

  /** The distance and parent tables. */
  datatype Tables = Tables(dist: map<NodeId, Dist>, parent: map<NodeId, Option<NodeId>>)

  /** `heappop`: removes an entry of least distance. Which of several
      entries of equal distance leaves first is not modelled. */
  method PopMin(h: seq<Entry>) returns (e: Entry, rest: seq<Entry>)
    requires h != []
    ensures e in h
    ensures forall f :: f in h ==> e.d <= f.d
    ensures |rest| == |h| - 1 && multiset(rest) + multiset{e} == multiset(h)
    ensures forall f :: f in rest ==> f in h
    ensures forall f :: f in h && f != e ==> f in rest
  {
    var k := 0;
    for i := 1 to |h|
      invariant 0 <= k < |h|
      invariant forall j :: 0 <= j < i ==> h[k].d <= h[j].d
    {
      if h[i].d < h[k].d {
        k := i;
      }
    }
    e := h[k];
    rest := h[..k] + h[k + 1..];
    assert h == h[..k] + [e] + h[k + 1..];
  }

  /** The tables are keyed by the nodes; the source is at 0 with no parent;
      finite distances are not negative; and a node other than the source
      has a parent exactly when its distance is finite. */
  ghost predicate TablesOk(g: Grafo, s: NodeId, dist: map<NodeId, Dist>, parent: map<NodeId, Option<NodeId>>)
  {
    && dist.Keys == Ids(g) && parent.Keys == Ids(g) && s in Ids(g)
    && dist[s] == Fin(0.0) && parent[s] == None
    && (forall v :: v in dist && dist[v].Fin? ==> dist[v].v >= 0.0)
    && (forall v {:trigger parent[v]} :: v in parent && v != s ==> (dist[v].Inf? <==> parent[v].None?))
  }

  /** The queue discipline: every entry is at or above its node's current
      distance; every unexpanded node with a finite distance has an entry at
      exactly that distance; and no entry lies below an expanded node. */
  ghost predicate QueueOk(dist: map<NodeId, Dist>, visited: set<NodeId>, heap: seq<Entry>)
  {
    && (forall e :: e in heap ==> e.id in dist && dist[e.id].Fin? && dist[e.id].v <= e.d)
    && (forall v :: v in dist && v !in visited && dist[v].Fin? ==> Entry(dist[v].v, v) in heap)
    && (forall u, e {:trigger u in visited, e in heap} :: u in visited && e in heap ==> u in dist && dist[u].Fin? && dist[u].v <= e.d)
  }

  /** Every expanded node has a final distance, and every neighbour of it
      satisfies the relaxation inequality. */
  ghost predicate SettledOk(g: Grafo, w: map<EdgeKey, real>, dist: map<NodeId, Dist>, visited: set<NodeId>)
  {
    && (forall u :: u in visited ==> u in dist && dist[u].Fin?)
    && (forall u, v {:trigger IsVecino(g, u, v), u in visited} :: u in visited && IsVecino(g, u, v) ==>
          u in dist && v in dist && dist[v].Fin? && dist[v].v <= dist[u].v + Weight(g, w, u, v))
  }

  /** A parent link from u to v: u was expanded, v is a neighbour of u, and
      v's distance is u's plus the weight between them. */
  ghost predicate ParentsOk(g: Grafo, w: map<EdgeKey, real>, dist: map<NodeId, Dist>, parent: map<NodeId, Option<NodeId>>, visited: set<NodeId>)
  {
    forall v {:trigger parent[v]} :: v in parent && parent[v].Some? ==>
      && parent[v].value in visited && parent[v].value in dist && v in dist
      && IsVecino(g, parent[v].value, v)
      && dist[parent[v].value].Fin?
      && dist[v] == Fin(dist[parent[v].value].v + Weight(g, w, parent[v].value, v))
  }

  /** Lowering v's distance to nd (with u as parent) keeps the tables
      well-formed, when v is not the source. */
  lemma TablesStep(g: Grafo, s: NodeId, dist: map<NodeId, Dist>, parent: map<NodeId, Option<NodeId>>, u: NodeId, v: NodeId, nd: real)
    requires TablesOk(g, s, dist, parent)
    requires v in Ids(g) && v != s && nd >= 0.0
    ensures TablesOk(g, s, dist[v := Fin(nd)], parent[v := Some(u)])
  {
  }

  /** Lowering an unexpanded node's distance to nd and pushing `(nd, v)`
      keeps the queue discipline, when nd is above every expanded node. */
  lemma QueueStep(dist: map<NodeId, Dist>, done: set<NodeId>, heap: seq<Entry>, v: NodeId, nd: real)
    requires QueueOk(dist, done, heap)
    requires v in dist && v !in done && (dist[v].Inf? || nd < dist[v].v)
    requires forall x :: x in done ==> x in dist && dist[x].Fin? && dist[x].v <= nd
    ensures QueueOk(dist[v := Fin(nd)], done, heap + [Entry(nd, v)])
  {
    var dist' := dist[v := Fin(nd)];
    var heap' := heap + [Entry(nd, v)];
    forall e | e in heap' ensures e.id in dist' && dist'[e.id].Fin? && dist'[e.id].v <= e.d {
      if e != Entry(nd, v) {
        assert e in heap;
      }
    }
    forall x | x in dist' && x !in done && dist'[x].Fin? ensures Entry(dist'[x].v, x) in heap' {
      if x != v {
        assert Entry(dist[x].v, x) in heap;
      }
    }
    forall x, e | x in done && e in heap' ensures x in dist' && dist'[x].Fin? && dist'[x].v <= e.d {
      if e != Entry(nd, v) {
        assert e in heap;
      }
    }
  }

  /** Lowering the distance of a node that was not expanded keeps every
      expanded node's relaxation inequality. */
  lemma SettledStep(g: Grafo, w: map<EdgeKey, real>, dist: map<NodeId, Dist>, visited: set<NodeId>, v: NodeId, nd: real)
    requires SettledOk(g, w, dist, visited)
    requires v in dist && v !in visited && (dist[v].Inf? || nd < dist[v].v)
    ensures SettledOk(g, w, dist[v := Fin(nd)], visited)
  {
  }

  /** Making an expanded u the parent of an unexpanded neighbour v at
      distance du + weight keeps every parent link tight. */
  lemma ParentsStep(g: Grafo, w: map<EdgeKey, real>, dist: map<NodeId, Dist>, parent: map<NodeId, Option<NodeId>>,
                    done: set<NodeId>, u: NodeId, du: real, v: NodeId, nd: real)
    requires ParentsOk(g, w, dist, parent, done)
    requires u in done && u in dist && dist[u] == Fin(du) && v in dist && v in parent && v !in done
    requires IsVecino(g, u, v) && nd == du + Weight(g, w, u, v)
    ensures ParentsOk(g, w, dist[v := Fin(nd)], parent[v := Some(u)], done)
  {
  }

  /** What holds while u's neighbours are relaxed, after the first i of
      them: the outer invariants with u counted as expanded, expanded
      distances untouched, no distance raised, and the relaxation
      inequality for the first i neighbours. */
  ghost predicate RelaxInv(g: Grafo, w: map<EdgeKey, real>, s: NodeId, visited: set<NodeId>, u: NodeId, du: real,
                           dist0: map<NodeId, Dist>, nbrs: seq<NodeId>, i: nat,
                           dist: map<NodeId, Dist>, parent: map<NodeId, Option<NodeId>>, heap: seq<Entry>)
  {
    && i <= |nbrs|
    && TablesOk(g, s, dist, parent)
    && QueueOk(dist, visited + {u}, heap)
    && (forall x :: x in visited + {u} ==> x in dist && x in dist0 && dist[x] == dist0[x])
    && (forall x :: x in dist0 && dist0[x].Fin? ==> x in dist && dist[x].Fin? && dist[x].v <= dist0[x].v)
    && SettledOk(g, w, dist, visited)
    && (forall j :: 0 <= j < i ==> nbrs[j] in dist && dist[nbrs[j]].Fin? && dist[nbrs[j]].v <= du + Weight(g, w, u, nbrs[j]))
    && ParentsOk(g, w, dist, parent, visited + {u})
  }

  /** Lowering v's distance to nd, when v is not among the expanded nodes
      and nd is the distance through u, keeps the expanded distances, lowers
      none, and extends the relaxation inequality to v. */
  lemma DistStep(g: Grafo, w: map<EdgeKey, real>, u: NodeId, du: real, dist0: map<NodeId, Dist>, done: set<NodeId>,
                 nbrs: seq<NodeId>, i: nat, dist: map<NodeId, Dist>, v: NodeId, nd: real)
    requires i < |nbrs| && v == nbrs[i] && nd == du + Weight(g, w, u, v)
    requires v in dist && v !in done && (dist[v].Inf? || nd < dist[v].v)
    requires forall x :: x in done ==> x in dist && x in dist0 && dist[x] == dist0[x]
    requires forall x :: x in dist0 && dist0[x].Fin? ==> x in dist && dist[x].Fin? && dist[x].v <= dist0[x].v
    requires forall j :: 0 <= j < i ==> nbrs[j] in dist && dist[nbrs[j]].Fin? && dist[nbrs[j]].v <= du + Weight(g, w, u, nbrs[j])
    ensures forall x :: x in done ==> x in dist[v := Fin(nd)] && x in dist0 && dist[v := Fin(nd)][x] == dist0[x]
    ensures forall x :: x in dist0 && dist0[x].Fin? ==>
      x in dist[v := Fin(nd)] && dist[v := Fin(nd)][x].Fin? && dist[v := Fin(nd)][x].v <= dist0[x].v
    ensures forall j :: 0 <= j < i + 1 ==>
      nbrs[j] in dist[v := Fin(nd)] && dist[v := Fin(nd)][nbrs[j]].Fin? && dist[v := Fin(nd)][nbrs[j]].v <= du + Weight(g, w, u, nbrs[j])
  {
  }

  /** The state at an iteration of the inner loop that lowers v's
      distance to nd, the distance through u. */
  ghost predicate LowerPre(g: Grafo, w: map<EdgeKey, real>, s: NodeId, visited: set<NodeId>, u: NodeId, du: real,
                           dist0: map<NodeId, Dist>, nbrs: seq<NodeId>, i: nat,
                           dist: map<NodeId, Dist>, parent: map<NodeId, Option<NodeId>>, heap: seq<Entry>, v: NodeId, nd: real)
  {
    && i < |nbrs| && v == nbrs[i] && v !in visited + {u} && v != s
    && IsVecino(g, u, v) && Weight(g, w, u, v) > 0.0 && nd == du + Weight(g, w, u, v)
    && u in dist0 && dist0[u] == Fin(du) && du >= 0.0
    && (forall x :: x in visited ==> x in dist0 && dist0[x].Fin? && dist0[x].v <= du)
    && RelaxInv(g, w, s, visited, u, du, dist0, nbrs, i, dist, parent, heap)
    && v in dist && (dist[v].Inf? || nd < dist[v].v)
  }

  /** Lowering v keeps the tables well-formed and the queue discipline. */
  lemma LowerTablesQueue(g: Grafo, w: map<EdgeKey, real>, s: NodeId, visited: set<NodeId>, u: NodeId, du: real,
                   dist0: map<NodeId, Dist>, nbrs: seq<NodeId>, i: nat,
                   dist: map<NodeId, Dist>, parent: map<NodeId, Option<NodeId>>, heap: seq<Entry>, v: NodeId, nd: real)
    requires LowerPre(g, w, s, visited, u, du, dist0, nbrs, i, dist, parent, heap, v, nd)
    ensures TablesOk(g, s, dist[v := Fin(nd)], parent[v := Some(u)])
    ensures QueueOk(dist[v := Fin(nd)], visited + {u}, heap + [Entry(nd, v)])
  {
    assert forall x :: x in visited + {u} ==> x in dist && dist[x].Fin? && dist[x].v <= nd;
    TablesStep(g, s, dist, parent, u, v, nd);
    QueueStep(dist, visited + {u}, heap, v, nd);
  }

  /** Lowering v keeps the expanded nodes' inequalities and the parent
      links. */
  lemma LowerSettledParents(g: Grafo, w: map<EdgeKey, real>, s: NodeId, visited: set<NodeId>, u: NodeId, du: real,
                   dist0: map<NodeId, Dist>, nbrs: seq<NodeId>, i: nat,
                   dist: map<NodeId, Dist>, parent: map<NodeId, Option<NodeId>>, heap: seq<Entry>, v: NodeId, nd: real)
    requires LowerPre(g, w, s, visited, u, du, dist0, nbrs, i, dist, parent, heap, v, nd)
    ensures SettledOk(g, w, dist[v := Fin(nd)], visited)
    ensures ParentsOk(g, w, dist[v := Fin(nd)], parent[v := Some(u)], visited + {u})
  {
    SettledStep(g, w, dist, visited, v, nd);
    ParentsStep(g, w, dist, parent, visited + {u}, u, du, v, nd);
  }

  /** Lowering v keeps the expanded distances, raises none, and extends the
      relaxation inequality to v. */
  lemma LowerDist(g: Grafo, w: map<EdgeKey, real>, s: NodeId, visited: set<NodeId>, u: NodeId, du: real,
                   dist0: map<NodeId, Dist>, nbrs: seq<NodeId>, i: nat,
                   dist: map<NodeId, Dist>, parent: map<NodeId, Option<NodeId>>, heap: seq<Entry>, v: NodeId, nd: real)
    requires LowerPre(g, w, s, visited, u, du, dist0, nbrs, i, dist, parent, heap, v, nd)
    ensures forall x :: x in visited + {u} ==> x in dist[v := Fin(nd)] && x in dist0 && dist[v := Fin(nd)][x] == dist0[x]
    ensures forall x :: x in dist0 && dist0[x].Fin? ==> x in dist[v := Fin(nd)] && dist[v := Fin(nd)][x].Fin? && dist[v := Fin(nd)][x].v <= dist0[x].v
    ensures forall j :: 0 <= j < i + 1 ==> nbrs[j] in dist[v := Fin(nd)] && dist[v := Fin(nd)][nbrs[j]].Fin? && dist[v := Fin(nd)][nbrs[j]].v <= du + Weight(g, w, u, nbrs[j])
  {
    DistStep(g, w, u, du, dist0, visited + {u}, nbrs, i, dist, v, nd);
  }

  /** An iteration of the inner loop that lowers v's distance keeps
      `RelaxInv`. */
  lemma RelaxLower(g: Grafo, w: map<EdgeKey, real>, s: NodeId, visited: set<NodeId>, u: NodeId, du: real,
                   dist0: map<NodeId, Dist>, nbrs: seq<NodeId>, i: nat,
                   dist: map<NodeId, Dist>, parent: map<NodeId, Option<NodeId>>, heap: seq<Entry>, v: NodeId, nd: real)
    requires LowerPre(g, w, s, visited, u, du, dist0, nbrs, i, dist, parent, heap, v, nd)
    ensures RelaxInv(g, w, s, visited, u, du, dist0, nbrs, i + 1, dist[v := Fin(nd)], parent[v := Some(u)], heap + [Entry(nd, v)])
  {
    LowerTablesQueue(g, w, s, visited, u, du, dist0, nbrs, i, dist, parent, heap, v, nd);
    LowerSettledParents(g, w, s, visited, u, du, dist0, nbrs, i, dist, parent, heap, v, nd);
    LowerDist(g, w, s, visited, u, du, dist0, nbrs, i, dist, parent, heap, v, nd);
  }

  /** The i-th entry of `vecinos(u)` is a node joined to u by an edge of
      positive weight. */
  lemma NeighbourStep(g: Grafo, w: map<EdgeKey, real>, u: NodeId, nbrs: seq<NodeId>, i: nat)
    requires Valid(g) && WeightsValid(g, w) && nbrs == Vecinos(g, u) && i < |nbrs|
    ensures IsVecino(g, u, nbrs[i]) && nbrs[i] in Ids(g) && Weight(g, w, u, nbrs[i]) > 0.0
  {
    VecinosSpec(g, u, nbrs[i]);
    VecinoIsEdge(g, u, nbrs[i]);
  }

  /** When the distance through u is lower, the iteration is one that
      `RelaxLower` covers: v is neither expanded nor u itself. */
  lemma LowerEnters(g: Grafo, w: map<EdgeKey, real>, s: NodeId, visited: set<NodeId>, u: NodeId, du: real,
                    dist0: map<NodeId, Dist>, nbrs: seq<NodeId>, i: nat,
                    dist: map<NodeId, Dist>, parent: map<NodeId, Option<NodeId>>, heap: seq<Entry>, v: NodeId, nd: real)
    requires i < |nbrs| && v == nbrs[i] && IsVecino(g, u, v) && v in Ids(g) && Weight(g, w, u, v) > 0.0
    requires nd == du + Weight(g, w, u, v)
    requires u in dist0 && dist0[u] == Fin(du)
    requires forall x :: x in visited ==> x in dist0 && dist0[x].Fin? && dist0[x].v <= du
    requires RelaxInv(g, w, s, visited, u, du, dist0, nbrs, i, dist, parent, heap)
    requires dist[v].Inf? || nd < dist[v].v
    ensures LowerPre(g, w, s, visited, u, du, dist0, nbrs, i, dist, parent, heap, v, nd)
  {
  }

  /** An iteration of the inner loop that finds v's distance already at or
      below the one through u keeps `RelaxInv`. */
  lemma RelaxKeep(g: Grafo, w: map<EdgeKey, real>, s: NodeId, visited: set<NodeId>, u: NodeId, du: real,
                  dist0: map<NodeId, Dist>, nbrs: seq<NodeId>, i: nat,
                  dist: map<NodeId, Dist>, parent: map<NodeId, Option<NodeId>>, heap: seq<Entry>)
    requires i < |nbrs| && RelaxInv(g, w, s, visited, u, du, dist0, nbrs, i, dist, parent, heap)
    requires nbrs[i] in Ids(g)
    requires !(dist[nbrs[i]].Inf? || du + Weight(g, w, u, nbrs[i]) < dist[nbrs[i]].v)
    ensures RelaxInv(g, w, s, visited, u, du, dist0, nbrs, i + 1, dist, parent, heap)
  {
  }

  /** The invariant of the `while heap` loop. */
  ghost predicate LoopInv(g: Grafo, w: map<EdgeKey, real>, s: NodeId, dist: map<NodeId, Dist>, parent: map<NodeId, Option<NodeId>>,
                          visited: set<NodeId>, heap: seq<Entry>)
  {
    && TablesOk(g, s, dist, parent) && visited <= Ids(g)
    && QueueOk(dist, visited, heap) && SettledOk(g, w, dist, visited) && ParentsOk(g, w, dist, parent, visited)
  }

  /** The state in which u's neighbours are relaxed: the loop invariant,
      except that u, popped at its distance du, already counts as expanded
      for the queue and the parent links but not yet for the relaxation
      inequality; every expanded node lies at or below du. */
  ghost predicate RelaxPre(g: Grafo, w: map<EdgeKey, real>, s: NodeId, visited: set<NodeId>, u: NodeId, du: real,
                           dist: map<NodeId, Dist>, parent: map<NodeId, Option<NodeId>>, heap: seq<Entry>)
  {
    && TablesOk(g, s, dist, parent)
    && u in Ids(g) && u !in visited && visited <= Ids(g)
    && u in dist && dist[u] == Fin(du)
    && QueueOk(dist, visited + {u}, heap)
    && (forall x :: x in visited ==> x in dist && dist[x].Fin? && dist[x].v <= du)
    && SettledOk(g, w, dist, visited)
    && ParentsOk(g, w, dist, parent, visited + {u})
  }

  /** The inner `for v in vecinos(u)` loop, run after u was popped at its
      final distance du and marked visited. */
  method Relax(g: Grafo, w: map<EdgeKey, real>, s: NodeId, visited: set<NodeId>, u: NodeId, du: real,
               dist0: map<NodeId, Dist>, parent0: map<NodeId, Option<NodeId>>, heap0: seq<Entry>)
    returns (dist: map<NodeId, Dist>, parent: map<NodeId, Option<NodeId>>, heap: seq<Entry>)
    requires Valid(g) && WeightsValid(g, w)
    requires RelaxPre(g, w, s, visited, u, du, dist0, parent0, heap0)
    ensures LoopInv(g, w, s, dist, parent, visited + {u}, heap)
    ensures forall x :: x in visited + {u} ==> dist[x] == dist0[x]
  {
    var nbrs := Vecinos(g, u);
    dist, parent, heap := dist0, parent0, heap0;
    for i := 0 to |nbrs|
      invariant RelaxInv(g, w, s, visited, u, du, dist0, nbrs, i, dist, parent, heap)
    {
      var v := nbrs[i];
      var nd := du + Weight(g, w, u, v);
      NeighbourStep(g, w, u, nbrs, i);
      if dist[v].Inf? || nd < dist[v].v {
        LowerEnters(g, w, s, visited, u, du, dist0, nbrs, i, dist, parent, heap, v, nd);
        RelaxLower(g, w, s, visited, u, du, dist0, nbrs, i, dist, parent, heap, v, nd);
        dist := dist[v := Fin(nd)];
        parent := parent[v := Some(u)];
        heap := heap + [Entry(nd, v)];
      } else {
        RelaxKeep(g, w, s, visited, u, du, dist0, nbrs, i, dist, parent, heap);
      }
    }
    SettledExtend(g, w, dist, visited, u, du, nbrs);
  }

  /** Once all of u's neighbours are relaxed, u joins the expanded nodes
      whose relaxation inequality holds. */
  lemma SettledExtend(g: Grafo, w: map<EdgeKey, real>, dist: map<NodeId, Dist>, visited: set<NodeId>, u: NodeId, du: real, nbrs: seq<NodeId>)
    requires SettledOk(g, w, dist, visited)
    requires nbrs == Vecinos(g, u) && u in dist && dist[u] == Fin(du)
    requires forall j :: 0 <= j < |nbrs| ==> nbrs[j] in dist && dist[nbrs[j]].Fin? && dist[nbrs[j]].v <= du + Weight(g, w, u, nbrs[j])
    ensures SettledOk(g, w, dist, visited + {u})
  {
    forall x, v | x in visited + {u} && IsVecino(g, x, v)
      ensures x in dist && v in dist && dist[v].Fin? && dist[v].v <= dist[x].v + Weight(g, w, x, v)
    {
      if x == u {
        VecinosSpec(g, u, v);
        var j :| 0 <= j < |nbrs| && nbrs[j] == v;
      }
    }
  }

  /** The tables Dijkstra leaves once its queue is empty: well-formed, the
      relaxation inequality on every step of the graph, and every parent
      link tight. */
  ghost predicate Final(g: Grafo, w: map<EdgeKey, real>, s: NodeId, dist: map<NodeId, Dist>, parent: map<NodeId, Option<NodeId>>)
  {
    TablesOk(g, s, dist, parent) && Relaxed(g, w, dist) && Tight(g, w, dist, parent)
  }

  /** No step of the graph leads from a node with a finite distance to a
      node whose distance exceeds it plus the step's weight. */
  ghost predicate Relaxed(g: Grafo, w: map<EdgeKey, real>, dist: map<NodeId, Dist>)
  {
    forall u, v {:trigger IsVecino(g, u, v)} :: u in dist && IsVecino(g, u, v) && dist[u].Fin? ==>
      v in dist && dist[v].Fin? && dist[v].v <= dist[u].v + Weight(g, w, u, v)
  }

  /** Every parent link is a step of the graph, and the child's distance is
      the parent's plus the step's weight. */
  ghost predicate Tight(g: Grafo, w: map<EdgeKey, real>, dist: map<NodeId, Dist>, parent: map<NodeId, Option<NodeId>>)
  {
    forall v {:trigger parent[v]} :: v in parent && parent[v].Some? ==>
      && v in dist && parent[v].value in dist && IsVecino(g, parent[v].value, v)
      && dist[parent[v].value].Fin?
      && dist[v] == Fin(dist[parent[v].value].v + Weight(g, w, parent[v].value, v))
  }

  /** Lines 76-80: every node at `inf` with no parent, except the source at
      0, the queue holding the source alone, and nothing expanded. */
  function InitialDist(g: Grafo, s: NodeId): map<NodeId, Dist>
  {
    (map v | v in Ids(g) :: Inf)[s := Fin(0.0)]
  }

  function InitialParent(g: Grafo): map<NodeId, Option<NodeId>>
  {
    map v | v in Ids(g) :: None
  }

  /** The initial tables and queue satisfy the loop invariant. */
  lemma InitOk(g: Grafo, w: map<EdgeKey, real>, s: NodeId)
    requires s in Ids(g)
    ensures LoopInv(g, w, s, InitialDist(g, s), InitialParent(g), {}, [Entry(0.0, s)])
  {
  }

  /** Popping an entry of a node already expanded (a stale entry) and
      dropping it keeps the loop invariant. */
  lemma PopStale(g: Grafo, w: map<EdgeKey, real>, s: NodeId, dist: map<NodeId, Dist>, parent: map<NodeId, Option<NodeId>>,
                 visited: set<NodeId>, heap: seq<Entry>, e: Entry, rest: seq<Entry>)
    requires LoopInv(g, w, s, dist, parent, visited, heap)
    requires e in heap && e.id in visited
    requires forall f :: f in rest ==> f in heap
    requires forall f :: f in heap && f != e ==> f in rest
    ensures LoopInv(g, w, s, dist, parent, visited, rest)
  {
    forall v | v in dist && v !in visited && dist[v].Fin? ensures Entry(dist[v].v, v) in rest {
      assert Entry(dist[v].v, v) in heap;
    }
  }

  /** A least entry of a node not yet expanded carries the node's own
      distance, which is at or above every expanded node's. */
  lemma PopAtDistance(dist: map<NodeId, Dist>, visited: set<NodeId>, heap: seq<Entry>, e: Entry)
    requires QueueOk(dist, visited, heap)
    requires e in heap && e.id !in visited
    requires forall f :: f in heap ==> e.d <= f.d
    ensures e.id in dist && dist[e.id] == Fin(e.d)
    ensures forall x :: x in visited ==> x in dist && dist[x].Fin? && dist[x].v <= e.d
  {
    assert Entry(dist[e.id].v, e.id) in heap;
  }

  /** Removing the least entry of u from the queue keeps the discipline
      once u counts as expanded. */
  lemma PopQueue(dist: map<NodeId, Dist>, visited: set<NodeId>, heap: seq<Entry>, e: Entry, rest: seq<Entry>)
    requires QueueOk(dist, visited, heap)
    requires e in heap && e.id in dist && dist[e.id] == Fin(e.d)
    requires forall f :: f in heap ==> e.d <= f.d
    requires forall f :: f in rest ==> f in heap
    requires forall f :: f in heap && f != e ==> f in rest
    ensures QueueOk(dist, visited + {e.id}, rest)
  {
    forall v | v in dist && v !in visited + {e.id} && dist[v].Fin? ensures Entry(dist[v].v, v) in rest {
      assert Entry(dist[v].v, v) in heap;
    }
  }

  /** Expanding a node not yet expanded leaves fewer to expand. */
  lemma ExpandShrinks(ids: set<NodeId>, visited: set<NodeId>, u: NodeId)
    requires u in ids && u !in visited
    ensures |ids - (visited + {u})| < |ids - visited|
  {
    assert (ids - (visited + {u})) + {u} == ids - visited;
  }

  /** Popping a least entry of a node not yet expanded: its distance is the
      node's own, at or above every expanded node's, and the rest of the
      queue satisfies the discipline with the node counted as expanded. */
  lemma PopFresh(g: Grafo, w: map<EdgeKey, real>, s: NodeId, dist: map<NodeId, Dist>, parent: map<NodeId, Option<NodeId>>,
                 visited: set<NodeId>, heap: seq<Entry>, e: Entry, rest: seq<Entry>)
    requires LoopInv(g, w, s, dist, parent, visited, heap)
    requires e in heap && e.id !in visited
    requires forall f :: f in heap ==> e.d <= f.d
    requires forall f :: f in rest ==> f in heap
    requires forall f :: f in heap && f != e ==> f in rest
    ensures RelaxPre(g, w, s, visited, e.id, e.d, dist, parent, rest)
    ensures |Ids(g) - (visited + {e.id})| < |Ids(g) - visited|
  {
    PopAtDistance(dist, visited, heap, e);
    PopQueue(dist, visited, heap, e, rest);
    ExpandShrinks(Ids(g), visited, e.id);
  }

  /** Once the queue is empty, every node with a finite distance has been
      expanded, and the tables are final. */
  lemma Finish(g: Grafo, w: map<EdgeKey, real>, s: NodeId, dist: map<NodeId, Dist>, parent: map<NodeId, Option<NodeId>>,
               visited: set<NodeId>)
    requires LoopInv(g, w, s, dist, parent, visited, [])
    ensures Final(g, w, s, dist, parent)
    ensures forall v :: v in Ids(g) ==> (v in visited <==> dist[v].Fin?)
  {
    forall v | v in Ids(g) && dist[v].Fin? ensures v in visited {
    }
  }

  /** The expansion record lists each expanded node exactly once. */
  ghost predicate Records(expanded: seq<NodeId>, visited: set<NodeId>)
  {
    Distinct(expanded) && forall v :: v in expanded <==> v in visited
  }

  /** Once the expanded nodes are those of finite distance, so are the
      recorded ones. */
  lemma RecordsReach(g: Grafo, dist: map<NodeId, Dist>, expanded: seq<NodeId>, visited: set<NodeId>)
    requires Records(expanded, visited) && dist.Keys == Ids(g)
    requires forall v :: v in Ids(g) ==> (v in visited <==> dist[v].Fin?)
    ensures forall v :: v in Ids(g) ==> (v in expanded <==> dist[v].Fin?)
  {
  }

  /** Recording the expansion of a node not yet expanded keeps the record
      free of repetitions and equal, as a set, to the expanded nodes. */
  lemma ExpandStep(expanded: seq<NodeId>, visited: set<NodeId>, u: NodeId)
    requires Records(expanded, visited) && u !in visited
    ensures Records(expanded + [u], visited + {u})
  {
    forall i, j | 0 <= i < j < |expanded| + 1 ensures (expanded + [u])[i] != (expanded + [u])[j] {
      if j == |expanded| {
        assert (expanded + [u])[i] == expanded[i];
        assert expanded[i] in expanded;
      }
    }
  }

  /** Lines 73-96 of `Dijkstra`: fails when s is not a node; otherwise
      returns tables satisfying `Final`, having expanded each reached node
      exactly once (ghost `expanded`, in expansion order). */
  method Distances(g: Grafo, w: map<EdgeKey, real>, s: NodeId)
    returns (r: Result<Tables>, ghost expanded: seq<NodeId>)
    requires Valid(g) && WeightsValid(g, w)
    ensures r.Err? <==> s !in Ids(g)
    ensures r.Err? ==> r.error == NoSuchSource
    ensures r.Ok? ==> Final(g, w, s, r.value.dist, r.value.parent)
    ensures r.Ok? ==> Distinct(expanded)
    ensures r.Ok? ==> forall v :: v in Ids(g) ==> (v in expanded <==> r.value.dist[v].Fin?)
  {
    if s !in Ids(g) {
      return Err(NoSuchSource), [];
    }
    var dist := InitialDist(g, s);
    var parent := InitialParent(g);
    InitOk(g, w, s);
    var heap := [Entry(0.0, s)];
    var visited: set<NodeId> := {};
    expanded := [];
    while heap != []
      invariant LoopInv(g, w, s, dist, parent, visited, heap)
      invariant Records(expanded, visited)
      decreases |Ids(g) - visited|, |heap|
    {
      var e, rest := PopMin(heap);
      var u := e.id;
      if u in visited {
        PopStale(g, w, s, dist, parent, visited, heap, e, rest);
        heap := rest;
      } else {
        PopFresh(g, w, s, dist, parent, visited, heap, e, rest);
        dist, parent, heap := Relax(g, w, s, visited, u, e.d, dist, parent, rest);
        ExpandStep(expanded, visited, u);
        visited := visited + {u};
        expanded := expanded + [u];
      }
    }
    Finish(g, w, s, dist, parent, visited);
    RecordsReach(g, dist, expanded, visited);
    return Ok(Tables(dist, parent)), expanded;
  }
}
