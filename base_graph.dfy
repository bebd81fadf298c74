/** The unweighted base graph that GrafoDijkstra extends. Its own source is
    not part of this model; only the observable contract the weighted layer
    relies on is stated here: nodes in insertion order, each with optional
    coordinates; edges in insertion order, at most one per canonical key;
    edge insertion that reports whether it created the edge; neighbours. */
module BaseGraph {
  import opened Wrappers

  type NodeId = string

  datatype Node = Node(id: NodeId, x: Option<real>, y: Option<real>)

  /** An edge as `aristas()` lists it: origin and destination ids. */
  datatype Edge = Edge(origen: NodeId, destino: NodeId)

  /** The key under which an edge is stored: ordered when the graph is
      directed, an unordered pair otherwise. */
  datatype EdgeKey = Arc(tail: NodeId, head: NodeId) | Link(ends: set<NodeId>)

  function KeyOf(dirigido: bool, u: NodeId, v: NodeId): EdgeKey
  {
    if dirigido then Arc(u, v) else Link({u, v})
  }

  /** Two endpoint pairs share a key exactly when they are the same pair, or,
      in an undirected graph, the same pair reversed. */
  lemma KeyCanonical(dirigido: bool, u: NodeId, v: NodeId, u': NodeId, v': NodeId)
    ensures KeyOf(dirigido, u, v) == KeyOf(dirigido, u', v')
        <==> (u == u' && v == v') || (!dirigido && u == v' && v == u')
  {
    if !dirigido && KeyOf(dirigido, u, v) == KeyOf(dirigido, u', v') {
      assert {u, v} == {u', v'};
      assert u in {u', v'} && v in {u', v'} && u' in {u, v} && v' in {u, v};
    }
  }

  datatype Grafo = Grafo(dirigido: bool, nodos: seq<Node>, aristas: seq<Edge>)

  function Ids(g: Grafo): set<NodeId>
  {
    set n | n in g.nodos :: n.id
  }

  function EdgeKeyOf(g: Grafo, e: Edge): EdgeKey
  {
    KeyOf(g.dirigido, e.origen, e.destino)
  }

  /** The set `_aristas_key` of the base graph. */
  function Keys(g: Grafo): set<EdgeKey>
  {
    set e | e in g.aristas :: EdgeKeyOf(g, e)
  }

  /** No id appears twice in the list. */
  predicate Distinct(xs: seq<NodeId>)
  {
    forall i, j :: 0 <= i < j < |xs| ==> xs[i] != xs[j]
  }

  /** No two nodes of ns share an id. */
  predicate DistinctIds(ns: seq<Node>)
  {
    forall i, j :: 0 <= i < j < |ns| ==> ns[i].id != ns[j].id
  }

  /** The base graph's invariant: node ids are unique, every edge joins two
      nodes, and no two edges share a key. */
  ghost predicate Valid(g: Grafo)
  {
    && DistinctIds(g.nodos)
    && (forall e :: e in g.aristas ==> e.origen in Ids(g) && e.destino in Ids(g))
    && (forall i, j :: 0 <= i < j < |g.aristas| ==> EdgeKeyOf(g, g.aristas[i]) != EdgeKeyOf(g, g.aristas[j]))
  }

  /** `add_nodo`: appends a node with a fresh id; an id already present
      leaves the graph as it is. */
  function AddNodo(g: Grafo, id: NodeId, x: Option<real>, y: Option<real>): (r: Grafo)
    ensures Ids(r) == Ids(g) + {id}
    ensures r.dirigido == g.dirigido && r.aristas == g.aristas
    ensures id in Ids(g) ==> r == g
    ensures id !in Ids(g) ==> r.nodos == g.nodos + [Node(id, x, y)]
    ensures Valid(g) ==> Valid(r)
  {
    if id in Ids(g) then g
    else
      AppendNode(g, Node(id, x, y));
      g.(nodos := g.nodos + [Node(id, x, y)])
  }

  lemma AppendNode(g: Grafo, n: Node)
    requires n.id !in Ids(g)
    ensures Ids(g.(nodos := g.nodos + [n])) == Ids(g) + {n.id}
    ensures Valid(g) ==> Valid(g.(nodos := g.nodos + [n]))
  {
    var h := g.(nodos := g.nodos + [n]);
    IdsAppend(g, n);
    if Valid(g) {
      forall i, j | 0 <= i < j < |h.nodos| ensures h.nodos[i].id != h.nodos[j].id {
        assert h.nodos[i] == g.nodos[i];
        if j == |g.nodos| {
          assert g.nodos[i].id in Ids(g);
        } else {
          assert h.nodos[j] == g.nodos[j];
        }
      }
    }
  }

  lemma IdsAppend(g: Grafo, n: Node)
    ensures Ids(g.(nodos := g.nodos + [n])) == Ids(g) + {n.id}
  {
    var h := g.(nodos := g.nodos + [n]);
    forall k | k in Ids(h) ensures k in Ids(g) + {n.id} {
      var m :| m in h.nodos && m.id == k;
      if m != n { assert m in g.nodos; }
    }
    forall k | k in Ids(g) ensures k in Ids(h) {
      var m :| m in g.nodos && m.id == k;
      assert m in h.nodos;
    }
    assert n in h.nodos;
  }

  /** `add_arista` of the base graph: fails when an endpoint is not a node;
      otherwise reports whether it created the edge, which it does exactly
      when no edge with the same key exists yet. */
  function AddArista(g: Grafo, u: NodeId, v: NodeId): (r: Result<(Grafo, bool)>)
    ensures r.Err? <==> u !in Ids(g) || v !in Ids(g)
    ensures r.Err? ==> r.error == NoSuchNode
    ensures r.Ok? ==>
      var (h, created) := r.value;
      && h.dirigido == g.dirigido && h.nodos == g.nodos
      && created == (KeyOf(g.dirigido, u, v) !in Keys(g))
      && Keys(h) == Keys(g) + {KeyOf(g.dirigido, u, v)}
      && (created ==> h.aristas == g.aristas + [Edge(u, v)])
      && (!created ==> h == g)
      && (Valid(g) ==> Valid(h))
  {
    if u !in Ids(g) || v !in Ids(g) then Err(NoSuchNode)
    else if KeyOf(g.dirigido, u, v) in Keys(g) then Ok((g, false))
    else
      var h := g.(aristas := g.aristas + [Edge(u, v)]);
      KeysAppend(g, Edge(u, v));
      AppendEdge(g, Edge(u, v));
      Ok((h, true))
  }

  /** Appending an edge between two nodes under a fresh key keeps the
      invariant. */
  lemma AppendEdge(g: Grafo, e: Edge)
    requires e.origen in Ids(g) && e.destino in Ids(g) && EdgeKeyOf(g, e) !in Keys(g)
    ensures Valid(g) ==> Valid(g.(aristas := g.aristas + [e]))
  {
    var h := g.(aristas := g.aristas + [e]);
    assert Ids(h) == Ids(g);
    if Valid(g) {
      forall f | f in h.aristas ensures f.origen in Ids(h) && f.destino in Ids(h) {
        if f != e { assert f in g.aristas; }
      }
      forall i, j | 0 <= i < j < |h.aristas| ensures EdgeKeyOf(h, h.aristas[i]) != EdgeKeyOf(h, h.aristas[j]) {
        if j == |g.aristas| {
          assert h.aristas[i] in g.aristas;
        } else {
          assert h.aristas[i] == g.aristas[i] && h.aristas[j] == g.aristas[j];
        }
      }
    }
  }

  lemma KeysAppend(g: Grafo, e: Edge)
    ensures Keys(g.(aristas := g.aristas + [e])) == Keys(g) + {EdgeKeyOf(g, e)}
  {
    var h := g.(aristas := g.aristas + [e]);
    forall k | k in Keys(h) ensures k in Keys(g) + {EdgeKeyOf(g, e)} {
      var f :| f in h.aristas && EdgeKeyOf(h, f) == k;
      if f != e { assert f in g.aristas; }
    }
    assert e in h.aristas && EdgeKeyOf(h, e) == EdgeKeyOf(g, e);
    forall k | k in Keys(g) ensures k in Keys(h) {
      var f :| f in g.aristas && EdgeKeyOf(g, f) == k;
      assert f in h.aristas;
    }
  }

  /** `vecinos(u)`: the far end of every edge leaving u, and, when the graph
      is undirected, of every edge arriving at u, in edge order. */
  function Vecinos(g: Grafo, u: NodeId): seq<NodeId>
  {
    Adjacent(g.dirigido, g.aristas, u)
  }

  function Adjacent(dirigido: bool, es: seq<Edge>, u: NodeId): seq<NodeId>
  {
    if es == [] then []
    else
      (if es[0].origen == u then [es[0].destino] else [])
      + (if !dirigido && es[0].destino == u then [es[0].origen] else [])
      + Adjacent(dirigido, es[1..], u)
  }

  /** v is joined to u by e, as `vecinos` reads edges. */
  predicate Joins(dirigido: bool, e: Edge, u: NodeId, v: NodeId)
  {
    (e.origen == u && e.destino == v) || (!dirigido && e.destino == u && e.origen == v)
  }

  /** v is a neighbour of u exactly when some edge joins them. */
  lemma {:induction false} AdjacentSpec(dirigido: bool, es: seq<Edge>, u: NodeId, v: NodeId)
    ensures v in Adjacent(dirigido, es, u) <==> exists e :: e in es && Joins(dirigido, e, u, v)
  {
    if es != [] {
      var a := if es[0].origen == u then [es[0].destino] else [];
      var b := if !dirigido && es[0].destino == u then [es[0].origen] else [];
      var rest := Adjacent(dirigido, es[1..], u);
      assert Adjacent(dirigido, es, u) == a + b + rest;
      AdjacentSpec(dirigido, es[1..], u, v);
      if v in rest {
        var e :| e in es[1..] && Joins(dirigido, e, u, v);
        assert e in es;
      }
      if v in a || v in b {
        assert Joins(dirigido, es[0], u, v);
      }
      if exists e :: e in es && Joins(dirigido, e, u, v) {
        var e :| e in es && Joins(dirigido, e, u, v);
        if e != es[0] {
          assert e in es[1..];
        }
      }
    }
  }

  /** v is a neighbour of u: some edge of g joins them. */
  ghost predicate IsVecino(g: Grafo, u: NodeId, v: NodeId)
  {
    exists e :: e in g.aristas && Joins(g.dirigido, e, u, v)
  }

  /** `vecinos(u)` lists exactly the neighbours of u. */
  lemma VecinosSpec(g: Grafo, u: NodeId, v: NodeId)
    ensures v in Vecinos(g, u) <==> IsVecino(g, u, v)
  {
    AdjacentSpec(g.dirigido, g.aristas, u, v);
  }

  /** Neighbours are nodes, and the key of a node and a neighbour is the key
      of an edge of the graph. */
  lemma VecinoIsEdge(g: Grafo, u: NodeId, v: NodeId)
    requires Valid(g) && IsVecino(g, u, v)
    ensures u in Ids(g) && v in Ids(g) && KeyOf(g.dirigido, u, v) in Keys(g)
  {
    var e :| e in g.aristas && Joins(g.dirigido, e, u, v);
    KeyCanonical(g.dirigido, u, v, e.origen, e.destino);
    assert EdgeKeyOf(g, e) == KeyOf(g.dirigido, u, v);
  }
}
