/** `GrafoDijkstra`: a graph whose edges carry strictly positive weights,
    kept in a store keyed by edge key, with Dijkstra's single-source
    shortest paths on top. */
module WeightedGraph {
  import opened Wrappers
  import opened BaseGraph
  import opened Weights
  import opened Dijkstra
  import opened ShortestPaths
  import opened SpTree

  /** `add_arista(u, v, peso)` on the graph g with store w: the new graph,
      the new store and what the call returns. The base insertion comes
      first and stays even when the weight is then refused. */
  function AddAristaStep(g: Grafo, w: map<EdgeKey, real>, u: NodeId, v: NodeId, peso: real)
    : (r: (Grafo, map<EdgeKey, real>, Result<bool>))
    ensures r.2.Err? <==> u !in Ids(g) || v !in Ids(g) || (KeyOf(g.dirigido, u, v) !in Keys(g) && peso <= 0.0)
    ensures r.2.Err? && (u !in Ids(g) || v !in Ids(g)) ==> r.2.error == NoSuchNode && r.0 == g && r.1 == w
    ensures u in Ids(g) && v in Ids(g) && KeyOf(g.dirigido, u, v) !in Keys(g) && peso <= 0.0 ==>
      r.2 == Err(NonPositiveWeight)
    ensures r.2 == Err(NonPositiveWeight) ==> r.0.aristas == g.aristas + [Edge(u, v)] && r.1 == w
    ensures r.2 == Ok(false) <==> u in Ids(g) && v in Ids(g) && KeyOf(g.dirigido, u, v) in Keys(g)
    ensures r.2 == Ok(false) ==> r.0 == g && r.1 == w
    ensures r.2 == Ok(true) ==> r.0.aristas == g.aristas + [Edge(u, v)] && r.1 == w[KeyOf(g.dirigido, u, v) := peso]
    ensures r.0.nodos == g.nodos && r.0.dirigido == g.dirigido
    ensures Valid(g) && WeightsValid(g, w) ==> Valid(r.0) && WeightsValid(r.0, r.1)
  {
    match AddArista(g, u, v)
    case Err(e) => (g, w, Err(e))
    case Ok((h, created)) =>
      if !created then (h, w, Ok(false))
      else
        StoreGrows(g, h, w, KeyOf(g.dirigido, u, v), peso);
        if peso <= 0.0 then (h, w, Err(NonPositiveWeight))
        else (h, w[KeyOf(g.dirigido, u, v) := peso], Ok(true))
  }

  /** A store valid for g stays valid when g gains the key k, and so does
      the store with a positive weight put under k. */
  lemma StoreGrows(g: Grafo, h: Grafo, w: map<EdgeKey, real>, k: EdgeKey, peso: real)
    requires Keys(h) == Keys(g) + {k}
    ensures WeightsValid(g, w) ==> WeightsValid(h, w)
    ensures WeightsValid(g, w) && peso > 0.0 ==> WeightsValid(h, w[k := peso])
  {
  }

  /** `set_peso(u, v, peso)` on the graph g with store w: the new store and
      the outcome. The graph never changes. */
  function SetPesoStep(g: Grafo, w: map<EdgeKey, real>, u: NodeId, v: NodeId, peso: real)
    : (r: (map<EdgeKey, real>, Outcome))
    ensures peso <= 0.0 ==> r == (w, Fail(NonPositiveWeight))
    ensures peso > 0.0 && (u !in Ids(g) || v !in Ids(g)) ==> r == (w, Fail(NoSuchNode))
    ensures peso > 0.0 && u in Ids(g) && v in Ids(g) && KeyOf(g.dirigido, u, v) !in Keys(g) ==>
      r == (w, Fail(NoSuchEdge))
    ensures r.1 == Pass <==> peso > 0.0 && u in Ids(g) && v in Ids(g) && KeyOf(g.dirigido, u, v) in Keys(g)
    ensures r.1.Fail? ==> r.0 == w
    ensures r.1 == Pass ==> r.0 == w[KeyOf(g.dirigido, u, v) := peso]
    ensures WeightsValid(g, w) ==> WeightsValid(g, r.0)
  {
    if peso <= 0.0 then (w, Fail(NonPositiveWeight))
    else if u !in Ids(g) || v !in Ids(g) then (w, Fail(NoSuchNode))
    else if KeyOf(g.dirigido, u, v) !in Keys(g) then (w, Fail(NoSuchEdge))
    else (w[KeyOf(g.dirigido, u, v) := peso], Pass)
  }

  /** Reading back after a `set_peso` that succeeded: the pair now weighs
      `peso` (in an undirected graph, in both directions), and every pair
      with another key weighs what it weighed before. */
  lemma SetThenPeso(g: Grafo, w: map<EdgeKey, real>, u: NodeId, v: NodeId, peso: real, x: NodeId, y: NodeId)
    requires SetPesoStep(g, w, u, v, peso).1 == Pass
    ensures Weight(g, SetPesoStep(g, w, u, v, peso).0, u, v) == peso
    ensures !g.dirigido ==> Weight(g, SetPesoStep(g, w, u, v, peso).0, v, u) == peso
    ensures KeyOf(g.dirigido, x, y) != KeyOf(g.dirigido, u, v) ==>
      Weight(g, SetPesoStep(g, w, u, v, peso).0, x, y) == Weight(g, w, x, y)
  {
    if !g.dirigido {
      WeightSymmetric(g, SetPesoStep(g, w, u, v, peso).0, u, v);
    }
  }

  /** Reading back after an `add_arista` that created the edge: the pair
      weighs `peso` in the new graph, and every pair with another key weighs
      what it weighed before. */
  lemma AddThenPeso(g: Grafo, w: map<EdgeKey, real>, u: NodeId, v: NodeId, peso: real, x: NodeId, y: NodeId)
    requires AddAristaStep(g, w, u, v, peso).2 == Ok(true)
    ensures var (h, w', _) := AddAristaStep(g, w, u, v, peso);
      && Weight(h, w', u, v) == peso
      && (KeyOf(g.dirigido, x, y) != KeyOf(g.dirigido, u, v) ==> Weight(h, w', x, y) == Weight(g, w, x, y))
  {
  }

  /** The store `from_grafo` leaves: weight 1.0 on every edge of g. */
  function UnitWeights(g: Grafo): map<EdgeKey, real>
  {
    map k | k in Keys(g) :: 1.0
  }

  /** Under the unit weights every pair weighs 1.0: an edge by its entry,
      any other pair by the default. */
  lemma UnitWeightsRead(g: Grafo, u: NodeId, v: NodeId)
    ensures Weight(g, UnitWeights(g), u, v) == 1.0
  {
  }

  class GrafoDijkstra {
    /** The inherited graph: direction flag, nodes and edges. */
    var g: Grafo
    /** `_w`: edge key to weight. */
    var w: map<EdgeKey, real>

    /** The base graph's invariant, and positive weights keyed by edges. */
    ghost predicate Valid()
      reads this
    {
      BaseGraph.Valid(g) && WeightsValid(g, w)
    }

    constructor(dirigido: bool)
      ensures Valid() && g == Grafo(dirigido, [], []) && w == map[]
    {
      g := Grafo(dirigido, [], []);
      w := map[];
    }

    /** The inherited `add_nodo`. */
    method AddNodo(id: NodeId, x: Option<real>, y: Option<real>)
      requires Valid()
      modifies this
      ensures Valid() && g == BaseGraph.AddNodo(old(g), id, x, y) && w == old(w)
    {
      g := BaseGraph.AddNodo(g, id, x, y);
    }

    /** `add_arista`. */
    method AddArista(u: NodeId, v: NodeId, peso: real) returns (r: Result<bool>)
      requires Valid()
      modifies this
      ensures Valid() && (g, w, r) == AddAristaStep(old(g), old(w), u, v, peso)
    {
      var base := BaseGraph.AddArista(g, u, v);
      if base.Err? {
        return Err(base.error);
      }
      var (h, created) := base.value;
      g := h;
      if !created {
        return Ok(false);
      }
      if peso <= 0.0 {
        return Err(NonPositiveWeight);
      }
      w := w[KeyOf(g.dirigido, u, v) := peso];
      return Ok(true);
    }

    /** `set_peso`. */
    method SetPeso(u: NodeId, v: NodeId, peso: real) returns (r: Outcome)
      requires Valid()
      modifies this
      ensures Valid() && g == old(g) && (w, r) == SetPesoStep(old(g), old(w), u, v, peso)
    {
      if peso <= 0.0 {
        return Fail(NonPositiveWeight);
      }
      if u !in Ids(g) || v !in Ids(g) {
        return Fail(NoSuchNode);
      }
      var k := KeyOf(g.dirigido, u, v);
      if k !in Keys(g) {
        return Fail(NoSuchEdge);
      }
      w := w[k := peso];
      return Pass;
    }

    /** `peso_arista`: the stored weight of the pair's key, 1.0 when none is
        stored (whether or not the nodes share an edge); a missing node
        fails the node lookup. */
    function PesoArista(u: NodeId, v: NodeId): (r: Result<real>)
      reads this
      ensures r.Err? <==> u !in Ids(g) || v !in Ids(g)
      ensures r.Err? ==> r.error == NoSuchNode
      ensures r.Ok? ==> r.value == Weight(g, w, u, v)
      ensures r.Ok? && KeyOf(g.dirigido, u, v) in w ==> r.value == w[KeyOf(g.dirigido, u, v)]
      ensures r.Ok? && KeyOf(g.dirigido, u, v) !in w ==> r.value == DefaultWeight
      ensures r.Ok? && Valid() ==> r.value > 0.0
    {
      if u !in Ids(g) || v !in Ids(g) then Err(NoSuchNode)
      else Ok(Lookup(w, KeyOf(g.dirigido, u, v)))
    }

    /** `from_grafo`: the same direction, nodes with their coordinates and
        edges as base, every edge at weight 1.0. */
    static method FromGrafo(base: Grafo) returns (gd: GrafoDijkstra)
      requires BaseGraph.Valid(base)
      ensures fresh(gd) && gd.Valid()
      ensures gd.g == base && gd.w == UnitWeights(base)
    {
      gd := new GrafoDijkstra(base.dirigido);
      for i := 0 to |base.nodos|
        invariant gd.Valid() && gd.g == Grafo(base.dirigido, base.nodos[..i], []) && gd.w == map[]
      {
        var n := base.nodos[i];
        CopyNode(base, i);
        gd.AddNodo(n.id, n.x, n.y);
      }
      assert base.nodos[..|base.nodos|] == base.nodos;
      for i := 0 to |base.aristas|
        invariant gd.Valid() && gd.g == base.(aristas := base.aristas[..i]) && gd.w == UnitWeights(gd.g)
      {
        var a := base.aristas[i];
        CopyEdge(base, i);
        var r := gd.AddArista(a.origen, a.destino, 1.0);
      }
      assert base.aristas[..|base.aristas|] == base.aristas;
    }

    /** `asignar_pesos_uniformes`: edge i, in `aristas()` order, receives the
        draw `uniform(w_min, w_max)` made from the i-th unit draw `unit(i)`
        of the seeded generator. A draw that is not positive makes `set_peso`
        fail there, and the edges before it keep their new weights. */
    method AsignarPesosUniformes(wMin: real, wMax: real, unit: nat -> real) returns (r: Outcome)
      requires Valid()
      modifies this
      ensures Valid() && g == old(g)
      ensures Assigned(g, old(w), wMin, wMax, unit, w, r)
    {
      ghost var w0 := w;
      var g0 := g;
      for i := 0 to |g0.aristas|
        invariant g == g0 && WeightsValid(g0, w) && w == AssignFirst(g0, w0, wMin, wMax, unit, i)
        invariant DrawsPositive(wMin, wMax, unit, i)
      {
        var a, x := g0.aristas[i], Uniform(wMin, wMax, unit(i));
        DrawStep(g0, w0, wMin, wMax, unit, i);
        r := SetPeso(a.origen, a.destino, x);
        if r.Fail? {
          RefusedAt(g0, w0, wMin, wMax, unit, i);
          return;
        }
      }
      AllDrawn(g, w0, wMin, wMax, unit);
      r := Pass;
    }

    /** `Dijkstra(s)`: fails when s is not a node; otherwise the tree and the
        distance table, with the parent table (ghost) whose links the tree
        draws, and the nodes in the order they were expanded (ghost). */
    method Dijkstra(s: NodeId, fmt: real -> string)
      returns (r: Result<(Grafo, map<NodeId, Dist>)>, ghost parent: map<NodeId, Option<NodeId>>,
               ghost expanded: seq<NodeId>)
      requires Valid() && NoParen(fmt)
      ensures r.Err? <==> s !in Ids(g)
      ensures r.Err? ==> r.error == NoSuchSource
      ensures r.Ok? ==> Final(g, w, s, r.value.1, parent)
      ensures r.Ok? ==> Distinct(expanded) && forall v :: v in Ids(g) ==> (v in expanded <==> r.value.1[v].Fin?)
      ensures r.Ok? ==> TreeOf(g, r.value.1, parent, fmt, r.value.0)
    {
      var tables;
      tables, expanded := Distances(g, w, s);
      if tables.Err? {
        return Err(tables.error), map[], expanded;
      }
      var dist, links := tables.value.dist, tables.value.parent;
      parent := links;
      FinalCovers(g, w, s, dist, links);
      var t := BuildTree(g, dist, links, fmt);
      return Ok((t, dist)), parent, expanded;
    }
  }

  /** The outcome of drawing the weights of g's edges in order, starting
      from store w0, that left store w: it succeeds exactly when every draw
      is positive, leaving every edge at its draw; otherwise it fails at the
      first draw that is not, with the edges before it at their draws. */
  ghost predicate Assigned(g: Grafo, w0: map<EdgeKey, real>, wMin: real, wMax: real, unit: nat -> real,
                           w: map<EdgeKey, real>, r: Outcome)
  {
    && (r == Pass <==> forall i :: 0 <= i < |g.aristas| ==> Uniform(wMin, wMax, unit(i)) > 0.0)
    && (r == Pass ==> w == AssignFirst(g, w0, wMin, wMax, unit, |g.aristas|))
    && (r.Fail? ==>
          && r.error == NonPositiveWeight
          && exists k :: FirstRefused(g, wMin, wMax, unit, k) && w == AssignFirst(g, w0, wMin, wMax, unit, k))
  }

  /** k is the first edge whose draw is not positive. */
  ghost predicate FirstRefused(g: Grafo, wMin: real, wMax: real, unit: nat -> real, k: int)
  {
    && 0 <= k < |g.aristas| && Uniform(wMin, wMax, unit(k)) <= 0.0
    && forall j :: 0 <= j < k ==> Uniform(wMin, wMax, unit(j)) > 0.0
  }

  /** The first n draws are all positive. */
  ghost predicate DrawsPositive(wMin: real, wMax: real, unit: nat -> real, n: nat)
  {
    n == 0 || (DrawsPositive(wMin, wMax, unit, n - 1) && Uniform(wMin, wMax, unit(n - 1)) > 0.0)
  }

  lemma {:induction false} DrawsPositiveAll(wMin: real, wMax: real, unit: nat -> real, n: nat)
    ensures DrawsPositive(wMin, wMax, unit, n) <==> forall j :: 0 <= j < n ==> Uniform(wMin, wMax, unit(j)) > 0.0
  {
    if n > 0 {
      DrawsPositiveAll(wMin, wMax, unit, n - 1);
    }
  }

  /** Stopping at the first refused draw k is the failing outcome. */
  lemma RefusedAt(g: Grafo, w0: map<EdgeKey, real>, wMin: real, wMax: real, unit: nat -> real, k: nat)
    requires k < |g.aristas| && Uniform(wMin, wMax, unit(k)) <= 0.0
    requires DrawsPositive(wMin, wMax, unit, k)
    ensures Assigned(g, w0, wMin, wMax, unit, AssignFirst(g, w0, wMin, wMax, unit, k), Fail(NonPositiveWeight))
  {
    DrawsPositiveAll(wMin, wMax, unit, k);
    assert FirstRefused(g, wMin, wMax, unit, k);
  }

  /** Drawing every edge with no draw refused is the passing outcome. */
  lemma AllDrawn(g: Grafo, w0: map<EdgeKey, real>, wMin: real, wMax: real, unit: nat -> real)
    requires DrawsPositive(wMin, wMax, unit, |g.aristas|)
    ensures Assigned(g, w0, wMin, wMax, unit, AssignFirst(g, w0, wMin, wMax, unit, |g.aristas|), Pass)
  {
    DrawsPositiveAll(wMin, wMax, unit, |g.aristas|);
  }

  /** t is the shortest-path tree drawn from the tables: directed, the
      nodes of g renamed in order, one edge per node with a parent. */
  ghost predicate TreeOf(g: Grafo, dist: map<NodeId, Dist>, parent: map<NodeId, Option<NodeId>>,
                         fmt: real -> string, t: Grafo)
  {
    && Covers(g.nodos, dist, parent)
    && t.dirigido && Valid(t)
    && t.nodos == TreeNodes(g.nodos, dist, fmt)
    && t.aristas == TreeEdges(g.nodos, dist, parent, fmt)
  }

  /** The ends of edge i are nodes and its key is the key of the pair. */
  lemma EdgeEnds(g: Grafo, i: nat)
    requires Valid(g) && i < |g.aristas|
    ensures g.aristas[i].origen in Ids(g) && g.aristas[i].destino in Ids(g)
    ensures KeyOf(g.dirigido, g.aristas[i].origen, g.aristas[i].destino) == EdgeKeyOf(g, g.aristas[i])
    ensures EdgeKeyOf(g, g.aristas[i]) in Keys(g)
  {
    assert g.aristas[i] in g.aristas;
  }

  /** Setting edge i to its draw extends the draws by one when the draw is
      positive, and fails leaving the store as it is otherwise. */
  lemma DrawStep(g: Grafo, w: map<EdgeKey, real>, wMin: real, wMax: real, unit: nat -> real, i: nat)
    requires Valid(g) && i < |g.aristas|
    ensures var x := Uniform(wMin, wMax, unit(i));
      var a := g.aristas[i];
      SetPesoStep(g, AssignFirst(g, w, wMin, wMax, unit, i), a.origen, a.destino, x)
        == (if x > 0.0 then (AssignFirst(g, w, wMin, wMax, unit, i + 1), Pass)
            else (AssignFirst(g, w, wMin, wMax, unit, i), Fail(NonPositiveWeight)))
  {
    EdgeEnds(g, i);
  }

  /** Node i of a valid graph has an id not among the nodes before it, so
      adding it appends it. */
  lemma CopyNode(g: Grafo, i: nat)
    requires Valid(g) && i < |g.nodos|
    ensures var n := g.nodos[i];
      AddNodo(Grafo(g.dirigido, g.nodos[..i], []), n.id, n.x, n.y) == Grafo(g.dirigido, g.nodos[..i + 1], [])
  {
    var n := g.nodos[i];
    forall m | m in g.nodos[..i] ensures m.id != n.id {
      var j :| 0 <= j < i && g.nodos[..i][j] == m;
    }
    assert g.nodos[..i + 1] == g.nodos[..i] + [n];
  }

  /** Edge i of a valid graph joins nodes of the graph and has a key not
      among those of the edges before it. */
  lemma FreshEdge(g: Grafo, i: nat)
    requires Valid(g) && i < |g.aristas|
    ensures var e := g.aristas[i];
      && e.origen in Ids(g) && e.destino in Ids(g)
      && KeyOf(g.dirigido, e.origen, e.destino) !in Keys(g.(aristas := g.aristas[..i]))
  {
    EdgeEnds(g, i);
    var h := g.(aristas := g.aristas[..i]);
    forall f | f in h.aristas ensures EdgeKeyOf(h, f) != EdgeKeyOf(g, g.aristas[i]) {
      var j :| 0 <= j < i && h.aristas[j] == f;
    }
  }

  /** Copying edge i at weight 1.0 onto the copy of the edges before it
      creates the edge and records weight 1.0 for it. */
  lemma CopyEdge(g: Grafo, i: nat)
    requires Valid(g) && i < |g.aristas|
    ensures var (a, h) := (g.aristas[i], g.(aristas := g.aristas[..i]));
      AddAristaStep(h, UnitWeights(h), a.origen, a.destino, 1.0)
        == (g.(aristas := g.aristas[..i + 1]), UnitWeights(g.(aristas := g.aristas[..i + 1])), Ok(true))
  {
    var a, h := g.aristas[i], g.(aristas := g.aristas[..i]);
    FreshEdge(g, i);
    assert g.aristas[..i + 1] == g.aristas[..i] + [a];
    UnitWeightsAppend(h, a);
  }

  /** Appending an edge adds its key, at weight 1.0, to the unit weights. */
  lemma UnitWeightsAppend(g: Grafo, e: Edge)
    ensures UnitWeights(g.(aristas := g.aristas + [e])) == UnitWeights(g)[EdgeKeyOf(g, e) := 1.0]
  {
    KeysAppend(g, e);
  }
}
