# GrafoDijkstra and the Graphviz export, modelled in Dafny

This project models the weighted-graph layer `GrafoDijkstra`
(`scripts/grafo_dijkstra.py`) and the DOT export `export_graphviz`
(`scripts/export_gv_pesos.py`). It proves what they promise.

`GrafoDijkstra` extends an unweighted base graph `Grafo`. It adds a weight
store `_w`, which maps edge keys to strictly positive weights, and three
operations on it: `add_arista`, `set_peso` and `peso_arista`. It also has:
- `from_grafo`, which copies a base graph at weight 1.0;
- `asignar_pesos_uniformes`, which draws seeded uniform weights;
- `Dijkstra(s)`, which runs a lazy-deletion priority queue and returns a
  distance table and a directed shortest-path tree. The tree's nodes are
  renamed `"id (dist)"`.

`export_graphviz` builds the DOT text of a graph as a list of lines joined
by newlines.

Modules and files:

- `wrappers.dfy` (`Wrappers`): `Option`, `Result` and `Outcome`, plus the
  error kinds. The model returns errors where the source raises
  `ValueError` or `KeyError`.
- `base_graph.dfy` (`BaseGraph`): the contract of the base graph as values:
  - nodes with optional coordinates, in insertion order;
  - edges in insertion order, with at most one edge per canonical key
    (ordered when directed, an unordered pair otherwise);
  - `add_nodo`, `add_arista` and `vecinos`.
- `weights.dfy` (`Weights`): the weight store, its invariant, the lookup
  with its default of 1.0, `uniform(a, b)` and the sequence of seeded
  draws.
- `dijkstra.dfy` (`Dijkstra`): lines 73-96 of `Dijkstra`, meaning the
  tables, the heap, the `while heap` loop and the relaxation loop, together
  with the loop invariants.
- `shortest_paths.dfy` (`ShortestPaths`): what the final tables mean. A
  distance is the weight of a lightest walk from the source, and the parent
  links trace such a walk.
- `spt_tree.dfy` (`SpTree`): `label` and the tree construction (lines
  98-115).
- `grafo_dijkstra.dfy` (`WeightedGraph`): the class `GrafoDijkstra` with
  fields `g` (the inherited graph) and `w` (`_w`), and its methods.
- `export_graphviz.dfy` (`Graphviz`): the lines of the export (lines
  15-38) and the joined text.

## Where the code and the design description disagree (the model follows the code)

- `add_arista` with `peso <= 0` on a new edge inserts the base edge first
  (line 25), then raises (line 28). The edge stays, without a weight entry.
  The design text says no edge is created. `WeightedGraph.AddAristaStep`
  keeps the edge.
- `asignar_pesos_uniformes` calls `set_peso` edge by edge. When a draw is not
  positive (a non-positive `w_min` or `w_max`), it raises at that edge, and
  the edges before it keep their new weights. The design text describes an
  atomic assignment. `WeightedGraph.Assigned` states the partial outcome.
- `peso_arista` returns 1.0 for any pair of existing nodes that has no
  entry, whether or not an edge joins them. It fails only when a node is
  missing (lines 46-49). The model keeps this conflation.
- `uniform(a, b)` is `a + (b - a) * random()`. When `b < a`, the draw lies
  in `(b, a]` rather than in `[a, b)`. `Weights.UniformBounds` states both
  cases.

## Model

| member | source | states |
|---|---|---|
| BaseGraph.AddNodo | scripts/grafo_dijkstra.py:55-56 | the inherited `add_nodo` adds the id to the node ids; a fresh id is appended with its coordinates, a present one leaves the graph as it is; edges and direction are kept and the base invariant (unique ids, edges between nodes, one edge per key) is preserved |
| BaseGraph.AddArista | scripts/grafo_dijkstra.py:25 | the inherited `add_arista` fails exactly when an endpoint is not a node; otherwise it reports `true` exactly when the pair's key was new, in which case the edge is appended, and otherwise the graph is unchanged; the key set grows by the pair's key and the invariant is preserved |
| BaseGraph.KeyCanonical | scripts/grafo_dijkstra.py:31 | two pairs share an edge key exactly when they are the same pair, or, in an undirected graph, the same pair reversed |
| BaseGraph.VecinosSpec | scripts/grafo_dijkstra.py:89 | `vecinos(u)` lists v exactly when an edge joins u to v (either way round when undirected) |
| BaseGraph.VecinoIsEdge | scripts/grafo_dijkstra.py:89-91 | a neighbour is a node, and the key of the pair is the key of an edge of the graph |
| Weights.Lookup | scripts/grafo_dijkstra.py:49 | `_w.get(k, 1.0)`: the stored weight when the key has an entry, 1.0 otherwise, positive whenever the store is |
| Weights.WeightSymmetric | scripts/grafo_dijkstra.py:45-49 | in an undirected graph `peso_arista(u, v) == peso_arista(v, u)` |
| Weights.UniformBounds | scripts/grafo_dijkstra.py:65 | `uniform(a, b)` from a unit draw in [0, 1) lies in [a, b] when a <= b and in (b, a] otherwise, so it is positive when both bounds are |
| Weights.AssignFirstHit | scripts/grafo_dijkstra.py:63-65 | after the first n draws, edge i < n carries the i-th draw: later edges have other keys and never overwrite it |
| Weights.AssignFirstFrame | scripts/grafo_dijkstra.py:63-65 | the draws add exactly the keys of the drawn edges to the store and leave every other entry as it was |
| Weights.AssignAllCoversEdges | scripts/grafo_dijkstra.py:61-65 | once every edge is drawn with positive bounds, the store has an entry for exactly the edges of the graph and every entry is positive |
| WeightedGraph.AddAristaStep | scripts/grafo_dijkstra.py:24-33 | `add_arista(u, v, peso)` fails with `NoSuchNode` when a node is missing (nothing changes), and with `NonPositiveWeight` when both nodes exist, the edge is new and `peso <= 0` (the edge stays, the store is unchanged); it returns `false` exactly when the edge existed, and then nothing changes whatever `peso` is; it returns `true` after appending the edge and storing `peso` under its key; nodes and direction are kept, and both invariants are preserved |
| WeightedGraph.SetPesoStep | scripts/grafo_dijkstra.py:35-43 | `set_peso` refuses `peso <= 0` with `NonPositiveWeight` before any lookup; it then fails with `NoSuchNode` on a missing node, then with `NoSuchEdge` on a missing edge, each time leaving the store unchanged; it succeeds exactly when the weight is positive and the edge exists, and then only the pair's key changes, to `peso`; the store invariant is preserved |
| WeightedGraph.SetThenPeso | scripts/grafo_dijkstra.py:35-49 | after a successful `set_peso`, `peso_arista` on the pair returns `peso` (both directions when undirected), and every pair with another key reads as before |
| WeightedGraph.AddThenPeso | scripts/grafo_dijkstra.py:24-49 | after `add_arista` created an edge, `peso_arista` on the pair returns `peso`, and every pair with another key reads as before |
| WeightedGraph.UnitWeightsRead | scripts/grafo_dijkstra.py:49-58 | under the store `from_grafo` leaves, every pair weighs 1.0 |
| WeightedGraph.GrafoDijkstra.constructor | scripts/grafo_dijkstra.py:20-22 | an empty graph with the given direction and an empty store |
| WeightedGraph.GrafoDijkstra.AddNodo | scripts/grafo_dijkstra.py:56 | the inherited `add_nodo` on the object's graph; the store is unchanged |
| WeightedGraph.GrafoDijkstra.AddArista | scripts/grafo_dijkstra.py:24-33 | the new graph, store and result are those of `AddAristaStep` on the old ones, and the object stays valid |
| WeightedGraph.GrafoDijkstra.SetPeso | scripts/grafo_dijkstra.py:35-43 | the graph is unchanged; the new store and the outcome are those of `SetPesoStep`; the object stays valid |
| WeightedGraph.GrafoDijkstra.PesoArista | scripts/grafo_dijkstra.py:45-49 | fails exactly when a node is missing; otherwise the stored weight of the pair's key, or 1.0 without an entry; positive on a valid object |
| WeightedGraph.GrafoDijkstra.FromGrafo | scripts/grafo_dijkstra.py:51-59 | a fresh valid object whose graph equals the base graph (direction, nodes with coordinates, edges, all in order) and whose store holds 1.0 for exactly the base graph's edge keys |
| WeightedGraph.GrafoDijkstra.AsignarPesosUniformes | scripts/grafo_dijkstra.py:61-65 | the graph is unchanged and the object stays valid; the call succeeds exactly when every draw is positive, leaving edge i at draw i; otherwise it fails with `NonPositiveWeight` at the first refused draw k, with edges before k at their draws and the rest of the store as before |
| WeightedGraph.GrafoDijkstra.Dijkstra | scripts/grafo_dijkstra.py:67-117 | fails exactly when s is not a node; otherwise the distance table and parent links satisfy `Final`, each reached node is expanded exactly once, and the tree is the one `SpTree.BuildTree` states |
| WeightedGraph.DrawStep | scripts/grafo_dijkstra.py:64-65 | `set_peso` of edge i to its draw extends the draws by one when the draw is positive, and fails with the store unchanged otherwise |
| WeightedGraph.CopyEdge | scripts/grafo_dijkstra.py:57-58 | copying edge i at weight 1.0 onto the copy of the edges before it creates the edge and records 1.0 for it |
| Dijkstra.PopMin | scripts/grafo_dijkstra.py:84 | `heappop` removes one entry of least distance: the rest is the heap minus that entry, as a multiset |
| Dijkstra.Distances | scripts/grafo_dijkstra.py:73-96 | fails exactly when s is not a node; otherwise the loop ends with tables satisfying `Final`: keyed by the nodes, `dist[s] = 0` with no parent, finite distances non-negative, a parent exactly for finite non-source nodes, the relaxation inequality on every step from a finite node, and every parent link tight; each node is expanded at most once, and exactly the finite ones are expanded |
| Dijkstra.Relax | scripts/grafo_dijkstra.py:89-96 | relaxing the neighbours of the popped node u restores the loop invariant with u expanded, and leaves the distances of expanded nodes unchanged |
| Dijkstra.InitOk | scripts/grafo_dijkstra.py:76-81 | the initial tables (all `inf` with no parent, the source at 0) and the one-entry heap satisfy the loop invariant |
| Dijkstra.PopStale | scripts/grafo_dijkstra.py:84-86 | skipping an entry of an expanded node keeps the loop invariant |
| Dijkstra.PopFresh | scripts/grafo_dijkstra.py:84-87 | popping an unexpanded node gives it its final distance; every expanded node lies at or below it, and the number of unexpanded nodes drops |
| Dijkstra.Finish | scripts/grafo_dijkstra.py:83-96 | an empty heap leaves final tables, where a node is expanded exactly when its distance is finite |
| ShortestPaths.DistanceIsShortest | scripts/grafo_dijkstra.py:67-96 | with positive weights, a node's final distance is finite exactly when a walk from s reaches it; no such walk is lighter, and one weighs exactly the distance |
| ShortestPaths.ParentChainTo | scripts/grafo_dijkstra.py:93-96 | from every node with a finite distance, the parent links lead back to s along strictly increasing distances, with no cycle |
| ShortestPaths.ChainIsWalk | scripts/grafo_dijkstra.py:93-96 | such a chain of parent links is a walk of the graph whose weight is the distance of its end |
| ShortestPaths.DistancesDetermined | scripts/grafo_dijkstra.py:67-96 | any two final tables for the same graph and source hold the same distances, so running `Dijkstra` twice gives the same distance table whichever parents ties pick |
| SpTree.DistText | scripts/grafo_dijkstra.py:98-101 | the distance part of a label never holds `(` when the number format writes none (`inf` holds none) |
| SpTree.LabelShape | scripts/grafo_dijkstra.py:98-101 | `label(nid)` is the id, then ` (`, then the distance text, then `)` |
| SpTree.LabelInjective | scripts/grafo_dijkstra.py:98-105 | two labels are equal exactly when the ids and the distance texts are equal, so distinct nodes get distinct new ids |
| SpTree.RenamedDistinct | scripts/grafo_dijkstra.py:105-109 | the renamed nodes have distinct ids when the original ones do |
| SpTree.AddTreeNodes | scripts/grafo_dijkstra.py:104-109 | the `add_nodo` loop yields a directed tree with the renamed nodes, in order and with their coordinates, and no edges |
| SpTree.BuildTree | scripts/grafo_dijkstra.py:103-115 | the tree is directed and valid; its nodes are the graph's nodes renamed by `label`, in order, with their coordinates; its edges are one `label(parent) -> label(v)` per node v with a parent, in node order |
| SpTree.TreeEdgesSpec | scripts/grafo_dijkstra.py:112-115 | an edge is in the tree exactly when it is `label(parent[v]) -> label(v)` for a node v with a parent |
| SpTree.TreeEdgesCount | scripts/grafo_dijkstra.py:112-115 | the tree has as many edges as there are nodes with a parent |
| SpTree.ParentedReached | scripts/grafo_dijkstra.py:77-96 | after `Dijkstra`, the nodes with a parent are exactly the reached nodes other than the source |
| SpTree.TreeSize | scripts/grafo_dijkstra.py:103-117 | the tree has one node per node of the graph and one edge per reached node other than the source |
| Graphviz.Head | scripts/export_gv_pesos.py:15-16 | `digraph G {` exactly when the graph is directed; `graph G {` otherwise, including when the graph has no direction attribute |
| Graphviz.Conn | scripts/export_gv_pesos.py:17 | `->` exactly with the digraph header, `--` exactly with the graph header |
| Graphviz.NodeLineHasPos | scripts/export_gv_pesos.py:23-27 | a node statement ends in an attribute list exactly when both coordinates are present |
| Graphviz.EdgeLineHasLabel | scripts/export_gv_pesos.py:30-36 | an edge statement ends in a label attribute exactly when a weight function is given; it starts with the quoted origin, followed by the connector |
| Graphviz.DotLinesShape | scripts/export_gv_pesos.py:15-38 | the DOT lines are 3 + nodes + edges in number: the header, `  overlap=false;`, one statement per node in order, one per edge in order, then `}` |
| Graphviz.ExportLines | scripts/export_gv_pesos.py:15-38 | the list the appends build is exactly the DOT lines of the graph |
| Graphviz.SplitJoin | scripts/export_gv_pesos.py:39 | cutting the newline-joined text at its newlines gives back the lines when none contains a newline |
| Graphviz.ExportGraphviz | scripts/export_gv_pesos.py:15-39 | the text is always the DOT lines joined by newlines, and ends with `}` with no trailing newline; when no id and no rendered number holds a newline, cutting it at its newlines gives exactly the statements above, 3 + nodes + edges of them |

## Left out

- The base class `Grafo` (`src/grafo.py`) is not part of this model. Its observable contract is assumed, as `BaseGraph` states it:
  - `add_nodo` ignores an id that is already present;
  - `add_arista` reports a missing endpoint as an error, returns `false` on an existing key, and otherwise appends the edge;
  - `vecinos(u)` follows edges in insertion order, both ways when the graph is undirected;
  - `get_nodo` fails on a missing id.
- `random.Random(seed)` is not reproduced. The generator is a parameter `unit`, where `unit(i)` is the i-th value of `random()`, in [0, 1).
- Float formatting (`str(x)` of a coordinate, and `:.2f` of a distance or a weight) is an abstract function parameter. For `label`, the format is required never to write `(`, as `:.2f` never does; this is what makes the new ids distinct.
- Floating-point rounding is not modelled. Weights and distances are exact reals, and `math.inf` is the `Inf` case of `Dist`.
- NaN and infinite weights are outside the model, because a weight is a real. In the source the guards `peso <= 0` (lines 27 and 36 of `scripts/grafo_dijkstra.py`) let `nan` and `inf` through, so `_w` can hold a weight for which the positive-weight invariant does not hold.
- Node ids are modelled by their text (`NodeId` is a string), which is what `f"{nid}"` writes into a label. `SpTree.LabelInjective`, `SpTree.RenamedDistinct` and `SpTree.TreeSize` therefore take distinct ids to print differently. That holds for ids of one type, but not for ids of mixed types such as `1` and `"1"`.
- Which entry `heappop` returns among entries of equal distance is left open. The parent chosen among equal-distance ties is therefore not modelled either, and no property depends on it.
- Python exceptions are modelled as `Err` or `Fail` results. A raise in the middle of `asignar_pesos_uniformes` is modelled by returning at that edge.
- WeightedGraph.GrafoDijkstra.Dijkstra: the parent table and the expansion order are returned as ghost outputs, because the source keeps `parent` local; the tree and `dist` are the real results.
- Graphviz.ExportGraphviz: the directory creation and the file write (lines 12-13 and 39) are left out. The method returns the text that would be written.
- The graph passed to `export_graphviz` is given by its direction attribute (absent when `None`), its nodes and its edges.
- `scripts/gephi_batch_export.py`, `scripts/gephi_batch_export_2.py`, `scripts/config_p3.py`, `scripts/generar_dijkstra.py` and `scripts/generar_grafos_pesados.py` are not modelled. They are Gephi and Java API calls, layout numerics, file I/O and command-line orchestration.
