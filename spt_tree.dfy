/** The shortest-path tree `Dijkstra` hands back: a directed graph whose
    nodes are the original nodes renamed `"id (dist)"`, with the original
    coordinates, and whose edges run from each parent to its child. */
module SpTree {
  import opened Wrappers
  import opened BaseGraph
  import opened Dijkstra

  /** The two-decimal rendering of a finite distance. It is a parameter:
      the float formatting is not modelled beyond never writing '('. */
  ghost predicate NoParen(fmt: real -> string)
  {
    forall r :: '(' !in fmt(r)
  }

  /** The text inside the parentheses of a label. */
  function DistText(d: Dist, fmt: real -> string): (t: string)
    ensures NoParen(fmt) ==> '(' !in t
  {
    if d.Inf? then "inf" else fmt(d.v)
  }

  /** The inner `label(nid)`: the id, a space, and the distance in
      parentheses. */
  function Label(id: NodeId, d: Dist, fmt: real -> string): string
  {
    id + " (" + DistText(d, fmt) + ")"
  }

  /** The label carries the id, then " (", then the distance text, then ")". */
  lemma LabelShape(id: NodeId, d: Dist, fmt: real -> string)
    ensures var l := Label(id, d, fmt);
      && |l| == |id| + |DistText(d, fmt)| + 3
      && l[..|id|] == id && l[|id|..|id| + 2] == " ("
      && l[|id| + 2..|l| - 1] == DistText(d, fmt) && l[|l| - 1] == ')'
  {
  }

  /** In a label whose distance text has no '(', the last '(' is the one
      written after the id. */
  lemma LabelLastParen(id: NodeId, d: Dist, fmt: real -> string, k: int)
    requires NoParen(fmt) && |id| + 1 < k < |Label(id, d, fmt)|
    ensures Label(id, d, fmt)[k] != '('
  {
    var l := Label(id, d, fmt);
    LabelShape(id, d, fmt);
    if k < |l| - 1 {
      assert l[k] == l[|id| + 2..|l| - 1][k - |id| - 2];
    }
  }

  /** Distinct ids get distinct labels, whatever their distances, and one
      label carries one distance text: the distance text never writes '(',
      so the id is everything before the last " (". */
  lemma LabelInjective(a: NodeId, da: Dist, b: NodeId, db: Dist, fmt: real -> string)
    requires NoParen(fmt)
    ensures Label(a, da, fmt) == Label(b, db, fmt) <==> a == b && DistText(da, fmt) == DistText(db, fmt)
  {
    var la, lb := Label(a, da, fmt), Label(b, db, fmt);
    if la == lb {
      LabelShape(a, da, fmt);
      LabelShape(b, db, fmt);
      if |a| < |b| {
        LabelLastParen(a, da, fmt, |b| + 1);
      } else if |b| < |a| {
        LabelLastParen(b, db, fmt, |a| + 1);
      }
      assert a == la[..|a|] && b == lb[..|b|];
      assert DistText(da, fmt) == la[|a| + 2..|la| - 1];
    }
  }

  /** The new id of node v. */
  function NewId(dist: map<NodeId, Dist>, fmt: real -> string, v: NodeId): string
    requires v in dist
  {
    Label(v, dist[v], fmt)
  }

  /** The tables hold every node of ns and every parent they name. */
  predicate Covers(ns: seq<Node>, dist: map<NodeId, Dist>, parent: map<NodeId, Option<NodeId>>)
  {
    forall i :: 0 <= i < |ns| ==>
      ns[i].id in dist && ns[i].id in parent && (parent[ns[i].id].Some? ==> parent[ns[i].id].value in dist)
  }

  /** The nodes of the tree: ns renamed, coordinates kept, order kept. */
  function TreeNodes(ns: seq<Node>, dist: map<NodeId, Dist>, fmt: real -> string): seq<Node>
    requires forall i :: 0 <= i < |ns| ==> ns[i].id in dist
  {
    seq(|ns|, i requires 0 <= i < |ns| => Node(NewId(dist, fmt, ns[i].id), ns[i].x, ns[i].y))
  }

  /** The edges of the tree: for each node of ns with a parent, in the order
      of ns, an edge from the parent's new id to the node's. */
  function TreeEdges(ns: seq<Node>, dist: map<NodeId, Dist>, parent: map<NodeId, Option<NodeId>>,
                     fmt: real -> string): seq<Edge>
    requires Covers(ns, dist, parent)
  {
    if ns == [] then []
    else
      TreeEdges(ns[..|ns| - 1], dist, parent, fmt) + NodeEdge(ns[|ns| - 1], dist, parent, fmt)
  }

  /** The tree edge of node n, if it has a parent. */
  function NodeEdge(n: Node, dist: map<NodeId, Dist>, parent: map<NodeId, Option<NodeId>>, fmt: real -> string): seq<Edge>
    requires n.id in dist && n.id in parent && (parent[n.id].Some? ==> parent[n.id].value in dist)
  {
    if parent[n.id].Some? then [Edge(NewId(dist, fmt, parent[n.id].value), NewId(dist, fmt, n.id))] else []
  }

  /** e is the tree edge of node n: from its parent's new id to its own. */
  predicate EdgeOf(n: Node, dist: map<NodeId, Dist>, parent: map<NodeId, Option<NodeId>>, fmt: real -> string, e: Edge)
  {
    && n.id in dist && n.id in parent && parent[n.id].Some? && parent[n.id].value in dist
    && e == Edge(NewId(dist, fmt, parent[n.id].value), NewId(dist, fmt, n.id))
  }

  /** Every tree edge is the edge of some node of ns. */
  lemma {:induction false} TreeEdgeSource(ns: seq<Node>, dist: map<NodeId, Dist>, parent: map<NodeId, Option<NodeId>>,
                                          fmt: real -> string, e: Edge) returns (i: nat)
    requires Covers(ns, dist, parent) && e in TreeEdges(ns, dist, parent, fmt)
    ensures i < |ns| && EdgeOf(ns[i], dist, parent, fmt, e)
  {
    var ps := ns[..|ns| - 1];
    if e in TreeEdges(ps, dist, parent, fmt) {
      i := TreeEdgeSource(ps, dist, parent, fmt, e);
      assert ps[i] == ns[i];
    } else {
      i := |ns| - 1;
    }
  }

  /** The edge of every node of ns with a parent is a tree edge. */
  lemma {:induction false} TreeEdgeOfNode(ns: seq<Node>, dist: map<NodeId, Dist>, parent: map<NodeId, Option<NodeId>>,
                                          fmt: real -> string, i: nat, e: Edge)
    requires Covers(ns, dist, parent) && i < |ns| && EdgeOf(ns[i], dist, parent, fmt, e)
    ensures e in TreeEdges(ns, dist, parent, fmt)
  {
    var ps := ns[..|ns| - 1];
    if i < |ps| {
      assert ps[i] == ns[i];
      TreeEdgeOfNode(ps, dist, parent, fmt, i, e);
    } else {
      assert e in NodeEdge(ns[i], dist, parent, fmt);
    }
  }

  /** An edge is a tree edge exactly when it joins the new ids of a node of
      ns and its parent. */
  lemma TreeEdgesSpec(ns: seq<Node>, dist: map<NodeId, Dist>, parent: map<NodeId, Option<NodeId>>,
                      fmt: real -> string, e: Edge)
    requires Covers(ns, dist, parent)
    ensures e in TreeEdges(ns, dist, parent, fmt) <==> exists i :: 0 <= i < |ns| && EdgeOf(ns[i], dist, parent, fmt, e)
  {
    if e in TreeEdges(ns, dist, parent, fmt) {
      var i := TreeEdgeSource(ns, dist, parent, fmt, e);
    }
    forall i | 0 <= i < |ns| && EdgeOf(ns[i], dist, parent, fmt, e) ensures e in TreeEdges(ns, dist, parent, fmt) {
      TreeEdgeOfNode(ns, dist, parent, fmt, i, e);
    }
  }

  /** The ids of the nodes of ns that have a parent. */
  function Parented(ns: seq<Node>, parent: map<NodeId, Option<NodeId>>): set<NodeId>
  {
    set n | n in ns && n.id in parent && parent[n.id].Some? :: n.id
  }

  /** The parented ids of ns are those of all but its last node, plus the
      last node's id when it has a parent; that id is not among the others
      when the ids are distinct. */
  lemma ParentedLast(ns: seq<Node>, parent: map<NodeId, Option<NodeId>>)
    requires ns != [] && DistinctIds(ns)
    ensures var n := ns[|ns| - 1];
      && n.id !in Parented(ns[..|ns| - 1], parent)
      && Parented(ns, parent)
         == Parented(ns[..|ns| - 1], parent) + (if n.id in parent && parent[n.id].Some? then {n.id} else {})
  {
    var ps, n := ns[..|ns| - 1], ns[|ns| - 1];
    assert ns == ps + [n];
    forall m | m in ps ensures m.id != n.id {
      var j :| 0 <= j < |ps| && ps[j] == m;
      assert ns[j] == m;
    }
  }

  /** One tree edge per node with a parent. */
  lemma {:induction false} TreeEdgesCount(ns: seq<Node>, dist: map<NodeId, Dist>, parent: map<NodeId, Option<NodeId>>,
                                          fmt: real -> string)
    requires Covers(ns, dist, parent) && DistinctIds(ns)
    ensures |TreeEdges(ns, dist, parent, fmt)| == |Parented(ns, parent)|
  {
    if ns != [] {
      TreeEdgesCount(ns[..|ns| - 1], dist, parent, fmt);
      ParentedLast(ns, parent);
    }
  }

  /** The new ids of the nodes of ns. */
  function NewIds(ns: seq<Node>, dist: map<NodeId, Dist>, fmt: real -> string): set<string>
    requires forall i :: 0 <= i < |ns| ==> ns[i].id in dist
  {
    set i | 0 <= i < |ns| :: NewId(dist, fmt, ns[i].id)
  }

  /** Renaming keeps ids distinct. */
  lemma RenamedDistinct(ns: seq<Node>, dist: map<NodeId, Dist>, fmt: real -> string)
    requires (forall i :: 0 <= i < |ns| ==> ns[i].id in dist) && DistinctIds(ns) && NoParen(fmt)
    ensures DistinctIds(TreeNodes(ns, dist, fmt))
  {
    var ts := TreeNodes(ns, dist, fmt);
    forall i, j | 0 <= i < j < |ts| ensures ts[i].id != ts[j].id {
      LabelInjective(ns[i].id, dist[ns[i].id], ns[j].id, dist[ns[j].id], fmt);
    }
  }

  /** The tree's node ids are the new ids. */
  lemma TreeIds(ns: seq<Node>, dist: map<NodeId, Dist>, fmt: real -> string)
    requires forall i :: 0 <= i < |ns| ==> ns[i].id in dist
    ensures Ids(Grafo(true, TreeNodes(ns, dist, fmt), [])) == NewIds(ns, dist, fmt)
  {
    var ts := TreeNodes(ns, dist, fmt);
    forall l | l in NewIds(ns, dist, fmt) ensures l in Ids(Grafo(true, ts, [])) {
      var i :| 0 <= i < |ns| && l == NewId(dist, fmt, ns[i].id);
      assert ts[i] in ts;
    }
  }

  /** The new id of node i differs from those of the nodes before it. */
  lemma FreshNewId(ns: seq<Node>, dist: map<NodeId, Dist>, fmt: real -> string, i: nat)
    requires (forall i :: 0 <= i < |ns| ==> ns[i].id in dist) && DistinctIds(ns) && NoParen(fmt) && i < |ns|
    ensures NewId(dist, fmt, ns[i].id) !in NewIds(ns[..i], dist, fmt)
  {
    forall j | 0 <= j < i ensures NewId(dist, fmt, ns[..i][j].id) != NewId(dist, fmt, ns[i].id) {
      LabelInjective(ns[j].id, dist[ns[j].id], ns[i].id, dist[ns[i].id], fmt);
    }
  }

  /** The loop `for nid, nodo in self._nodos.items()` adding the renamed
      nodes to an empty directed graph. */
  method AddTreeNodes(ns: seq<Node>, dist: map<NodeId, Dist>, fmt: real -> string) returns (t: Grafo)
    requires (forall i :: 0 <= i < |ns| ==> ns[i].id in dist) && DistinctIds(ns) && NoParen(fmt)
    ensures t == Grafo(true, TreeNodes(ns, dist, fmt), [])
    ensures Valid(t) && Ids(t) == NewIds(ns, dist, fmt)
  {
    t := Grafo(true, [], []);
    for i := 0 to |ns|
      invariant t == Grafo(true, TreeNodes(ns[..i], dist, fmt), [])
      invariant Valid(t)
    {
      var n := ns[i];
      var l := NewId(dist, fmt, n.id);
      FreshNewId(ns, dist, fmt, i);
      TreeIds(ns[..i], dist, fmt);
      t := AddNodo(t, l, n.x, n.y);
      assert TreeNodes(ns[..i + 1], dist, fmt) == TreeNodes(ns[..i], dist, fmt) + [Node(l, n.x, n.y)];
    }
    assert ns[..|ns|] == ns;
    TreeIds(ns, dist, fmt);
  }

  /** The tree edges of the first i + 1 nodes: those of the first i, then
      the edge of node i when it has a parent. */
  lemma TreeEdgesStep(ns: seq<Node>, dist: map<NodeId, Dist>, parent: map<NodeId, Option<NodeId>>,
                      fmt: real -> string, i: nat)
    requires Covers(ns, dist, parent) && i < |ns|
    ensures TreeEdges(ns[..i + 1], dist, parent, fmt) == TreeEdges(ns[..i], dist, parent, fmt) + NodeEdge(ns[i], dist, parent, fmt)
  {
    assert ns[..i + 1][..i] == ns[..i];
  }

  /** The state of the edge loop after the first i nodes. */
  ghost predicate EdgeLoopInv(ns: seq<Node>, dist: map<NodeId, Dist>, parent: map<NodeId, Option<NodeId>>,
                              fmt: real -> string, i: nat, t: Grafo)
    requires Covers(ns, dist, parent)
  {
    && i <= |ns| && t.dirigido && t.nodos == TreeNodes(ns, dist, fmt) && Valid(t)
    && Ids(t) == NewIds(ns, dist, fmt)
    && t.aristas == TreeEdges(ns[..i], dist, parent, fmt)
  }

  /** No tree edge built from the first i nodes ends at the new id of
      node i. */
  lemma FreshHead(ns: seq<Node>, dist: map<NodeId, Dist>, parent: map<NodeId, Option<NodeId>>,
                  fmt: real -> string, i: nat, e: Edge)
    requires Covers(ns, dist, parent) && DistinctIds(ns) && NoParen(fmt) && i < |ns|
    requires e in TreeEdges(ns[..i], dist, parent, fmt)
    ensures e.destino != NewId(dist, fmt, ns[i].id)
  {
    var j := TreeEdgeSource(ns[..i], dist, parent, fmt, e);
    assert ns[..i][j] == ns[j];
    LabelInjective(ns[j].id, dist[ns[j].id], ns[i].id, dist[ns[i].id], fmt);
  }

  /** The edge of node i is new: no earlier tree edge ends where it does. */
  lemma FreshTreeEdge(ns: seq<Node>, dist: map<NodeId, Dist>, parent: map<NodeId, Option<NodeId>>,
                      fmt: real -> string, i: nat, t: Grafo, a: string)
    requires Covers(ns, dist, parent) && DistinctIds(ns) && NoParen(fmt)
    requires i < |ns| && EdgeLoopInv(ns, dist, parent, fmt, i, t)
    ensures KeyOf(true, a, NewId(dist, fmt, ns[i].id)) !in Keys(t)
  {
    forall e | e in t.aristas ensures EdgeKeyOf(t, e) != KeyOf(true, a, NewId(dist, fmt, ns[i].id)) {
      FreshHead(ns, dist, parent, fmt, i, e);
    }
  }

  /** The tables `Distances` returns cover g: keyed by its nodes, with
      every parent a node. */
  ghost predicate TablesCover(g: Grafo, dist: map<NodeId, Dist>, parent: map<NodeId, Option<NodeId>>)
  {
    && dist.Keys == Ids(g) && parent.Keys == Ids(g)
    && forall v {:trigger parent[v]} :: v in parent && parent[v].Some? ==> parent[v].value in Ids(g)
  }

  lemma CoversNodes(g: Grafo, dist: map<NodeId, Dist>, parent: map<NodeId, Option<NodeId>>)
    requires TablesCover(g, dist, parent)
    ensures Covers(g.nodos, dist, parent)
  {
    forall i | 0 <= i < |g.nodos| ensures g.nodos[i].id in Ids(g) {
      assert g.nodos[i] in g.nodos;
    }
  }

  /** A node of g has its new id among the tree's. */
  lemma NewIdIn(g: Grafo, dist: map<NodeId, Dist>, fmt: real -> string, v: NodeId)
    requires dist.Keys == Ids(g) && v in Ids(g)
    ensures NewId(dist, fmt, v) in NewIds(g.nodos, dist, fmt)
  {
    var n :| n in g.nodos && n.id == v;
    var i :| 0 <= i < |g.nodos| && g.nodos[i] == n;
  }

  /** Adding the edge from a to b, both nodes of the tree and the edge
      new, creates it and extends the tree's edges by it. */
  lemma EdgeAppend(t: Grafo, a: string, b: string)
    requires t.dirigido && Valid(t) && a in Ids(t) && b in Ids(t) && KeyOf(true, a, b) !in Keys(t)
    ensures var r := AddArista(t, a, b);
      && r.Ok? && r.value.1 && r.value.0 == t.(aristas := t.aristas + [Edge(a, b)])
      && Valid(r.value.0)
  {
  }

  /** Adding the edge of node i, which has a parent, creates it and keeps
      the loop's state. */
  lemma EdgeAdded(g: Grafo, dist: map<NodeId, Dist>, parent: map<NodeId, Option<NodeId>>, fmt: real -> string,
                  i: nat, t: Grafo)
    requires Valid(g) && TablesCover(g, dist, parent) && NoParen(fmt) && Covers(g.nodos, dist, parent)
    requires i < |g.nodos| && EdgeLoopInv(g.nodos, dist, parent, fmt, i, t) && parent[g.nodos[i].id].Some?
    ensures var r := AddArista(t, NewId(dist, fmt, parent[g.nodos[i].id].value), NewId(dist, fmt, g.nodos[i].id));
      r.Ok? && r.value.1 && EdgeLoopInv(g.nodos, dist, parent, fmt, i + 1, r.value.0)
  {
    var ns := g.nodos;
    var v := ns[i].id;
    var u := parent[v].value;
    var a, b := NewId(dist, fmt, u), NewId(dist, fmt, v);
    NewIdIn(g, dist, fmt, u);
    NewIdIn(g, dist, fmt, v);
    FreshTreeEdge(ns, dist, parent, fmt, i, t, a);
    EdgeAppend(t, a, b);
    TreeEdgesStep(ns, dist, parent, fmt, i);
  }

  /** Skipping node i, which has no parent, keeps the loop's state. */
  lemma EdgeSkipped(g: Grafo, dist: map<NodeId, Dist>, parent: map<NodeId, Option<NodeId>>, fmt: real -> string,
                    i: nat, t: Grafo)
    requires Covers(g.nodos, dist, parent)
    requires i < |g.nodos| && EdgeLoopInv(g.nodos, dist, parent, fmt, i, t) && parent[g.nodos[i].id].None?
    ensures EdgeLoopInv(g.nodos, dist, parent, fmt, i + 1, t)
  {
    TreeEdgesStep(g.nodos, dist, parent, fmt, i);
  }

  /** Lines 103-115: the tree as a directed graph, with the nodes of g
      renamed in order and the parent-to-child edges in node order. */
  method BuildTree(g: Grafo, dist: map<NodeId, Dist>, parent: map<NodeId, Option<NodeId>>, fmt: real -> string)
    returns (t: Grafo)
    requires Valid(g) && TablesCover(g, dist, parent) && NoParen(fmt)
    ensures t.dirigido && Valid(t)
    ensures Covers(g.nodos, dist, parent)
    ensures t.nodos == TreeNodes(g.nodos, dist, fmt) && t.aristas == TreeEdges(g.nodos, dist, parent, fmt)
  {
    CoversNodes(g, dist, parent);
    t := AddTreeNodes(g.nodos, dist, fmt);
    for i := 0 to |g.nodos|
      invariant EdgeLoopInv(g.nodos, dist, parent, fmt, i, t)
    {
      var v := g.nodos[i].id;
      if parent[v].Some? {
        EdgeAdded(g, dist, parent, fmt, i, t);
        var r := AddArista(t, NewId(dist, fmt, parent[v].value), NewId(dist, fmt, v));
        t := r.value.0;
      } else {
        EdgeSkipped(g, dist, parent, fmt, i, t);
      }
    }
    assert g.nodos[..|g.nodos|] == g.nodos;
  }

  /** In final tables the nodes with a parent are the reached nodes other
      than the source. */
  lemma ParentedReached(g: Grafo, w: map<EdgeKey, real>, s: NodeId, dist: map<NodeId, Dist>,
                        parent: map<NodeId, Option<NodeId>>)
    requires Final(g, w, s, dist, parent)
    ensures Parented(g.nodos, parent) == set v | v in Ids(g) && v != s && dist[v].Fin?
  {
  }

  /** Final tables cover the graph. */
  lemma FinalCovers(g: Grafo, w: map<EdgeKey, real>, s: NodeId, dist: map<NodeId, Dist>,
                    parent: map<NodeId, Option<NodeId>>)
    requires Final(g, w, s, dist, parent)
    ensures TablesCover(g, dist, parent) && Covers(g.nodos, dist, parent)
  {
    CoversNodes(g, dist, parent);
  }

  /** The tree has one node per node of g and one edge per reached node
      other than the source. */
  lemma TreeSize(g: Grafo, w: map<EdgeKey, real>, s: NodeId, dist: map<NodeId, Dist>,
                 parent: map<NodeId, Option<NodeId>>, fmt: real -> string)
    requires Valid(g) && Final(g, w, s, dist, parent)
    ensures Covers(g.nodos, dist, parent)
    ensures |TreeNodes(g.nodos, dist, fmt)| == |g.nodos|
    ensures |TreeEdges(g.nodos, dist, parent, fmt)| == |set v | v in Ids(g) && v != s && dist[v].Fin?|
  {
    FinalCovers(g, w, s, dist, parent);
    TreeEdgesCount(g.nodos, dist, parent, fmt);
    ParentedReached(g, w, s, dist, parent);
  }
}
