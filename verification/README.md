# Pipeline evaluator model

A Dafny model of the pipeline evaluator of the VectorShift pipeline builder:
the body of `parse_pipeline` in `backend/main.py`. The frontend posts the
nodes and edges of a drawn pipeline; the evaluator builds a networkx
`DiGraph` from them and answers with a flat report:

- `num_nodes` and `num_edges`, the lengths of the two request lists;
- `is_dag`, whether the graph has no directed cycle, and `has_cycles`, its
  negation;
- `is_connected`, whether the graph is weakly connected, forced to true when
  the request has no nodes;
- `node_types`, the distinct `type` values of the supplied nodes;
- `status`, always `"success"`.

The model is functional: requests are sequences of immutable `Node` and
`Edge` records, the graph is a set of vertices, a set of arcs and a map
holding the `type` attribute, and every operation is a pure function.

Files:

- `pipeline.dfy` (module `Pipeline`): the request records and the sets
  derived from them (declared ids, edge endpoints, arcs, node types).
- `digraph.dfy` (module `Digraph`): the graph, the two graph-building
  operations (`add_node`, `add_edge`), and the graph-theoretic definitions
  the two library questions stand for: a directed cycle is a closed walk of
  at least one arc (a self-loop is one), and a graph is weakly connected
  when every two vertices are joined by a walk that may follow arcs
  backwards.
- `acyclicity.dfy` (module `Acyclicity`): Kahn's algorithm, peeling off all
  vertices without an incoming arc round by round, proved to answer
  "no directed cycle".
- `connectivity.dfy` (module `Connectivity`): the undirected reachability
  closure from one vertex, proved to be the set of vertices joined to it,
  and the weak-connectivity test built on it.
- `evaluator.dfy` (module `Evaluator`): graph construction from the request
  and the evaluator itself.
- `properties.dfy` (module `Properties`): the evaluator's quirks as lemmas
  and the example requests below (empty request, single node, chain,
  two-node cycle, disconnected pair, dangling edge target).

The quirks the contracts pin down:

- the counts are the request list lengths: a repeated node id is one vertex
  but counts twice, and two edges with the same endpoints are one arc but
  count twice;
- an edge endpoint that no node declares becomes a vertex with no `type`
  attribute, and it takes part in the cycle and connectivity answers;
- with no nodes the report says connected even when the edges alone build a
  disconnected graph;
- a repeated node id keeps the `type` of its last occurrence in the graph,
  while `node_types` lists every type once.

The request schema (backend/main.py:18-22) does not make node ids unique,
so the model accepts repeated ids and gives them `add_node`'s behaviour (no
new vertex, last `type` wins).

The weak-connectivity search starts from the first supplied node. networkx
starts its search from the first vertex in insertion order, and nodes are
inserted before edges, so this is the same vertex. networkx raises on a
graph without vertices; `Connectivity.IsWeaklyConnectedFrom` requires a
start vertex instead, and the `num_nodes > 0` guard of the evaluator always
provides one, so the evaluator never takes its error path.

## Model

The two library calls that build the graph, networkx's `add_node` and
`add_edge` (backend/main.py:55 and 59), are modelled by `Digraph.AddNode`
and `Digraph.AddEdge`; they carry no contract of their own, and their
behaviour is pinned down through the `Evaluator.AddNodes` and
`Evaluator.AddEdges` rows below.

| member | source | states |
|---|---|---|
| Evaluator.AddNodes | backend/main.py:54-55 | After the node loop the vertices are the old ones plus every declared id, arcs are unchanged, exactly the declared ids gain a `type` attribute, and each id's attribute is the type of its last occurrence in the list; other attributes are kept |
| Evaluator.AddEdges | backend/main.py:58-59 | After the edge loop every source and target is a vertex, declared or not, the arcs are the old ones plus one arc per distinct (source, target) pair, and no `type` attribute changes |
| Evaluator.BuildGraph | backend/main.py:51-59 | The built graph's vertex set is exactly the declared ids together with all edge endpoints, its arcs are exactly the edges' pairs, only declared ids carry a `type`, and every arc joins two vertices |
| Evaluator.DistinctTypes | backend/main.py:74 | The reported type list has no duplicates and contains a string exactly when some supplied node has that type |
| Evaluator.Evaluate | backend/main.py:43-76 | `num_nodes`/`num_edges` are the lengths of the request lists; `is_dag` holds exactly when the built graph, dangling endpoints included, has no directed cycle; `has_cycles` is its negation; `is_connected` is true with no nodes and otherwise holds exactly when the graph is weakly connected; `node_types` is duplicate-free with exactly the supplied nodes' types; `status` is `"success"` |
| Acyclicity.PeelSources | backend/main.py:62 | Repeatedly removing every vertex without an incoming arc from the remaining ones empties the set exactly when the set holds no directed cycle |
| Acyclicity.IsDag | backend/main.py:62 | Kahn's test on the whole vertex set answers true exactly when the graph has no directed cycle |
| Acyclicity.PeelingKeepsCycles | backend/main.py:62 | Removing the vertices without incoming arcs neither creates nor destroys a directed cycle |
| Acyclicity.StuckMeansCycle | backend/main.py:62 | If every vertex of a non-empty set has a predecessor inside the set, the set contains a directed cycle |
| Acyclicity.WalkBack | backend/main.py:62 | A backward walk inside a set where every vertex has a predecessor can always be extended or closed into a cycle |
| Connectivity.Explore | backend/main.py:66 | Growing a set of vertices by adjacency in either direction until it stops changing yields exactly the vertices joined to the start vertex by an undirected walk |
| Connectivity.IsWeaklyConnectedFrom | backend/main.py:66 | For a graph with at least one vertex, the search from any vertex reaches everything exactly when every pair of vertices is joined by an undirected walk |
| Connectivity.ClosedHoldsWalk | backend/main.py:66 | An undirected walk that starts in a set closed under adjacency ends in that set |
| Connectivity.LinkedSymmetric | backend/main.py:66 | Being joined by an undirected walk is symmetric |
| Connectivity.LinkedTransitive | backend/main.py:66 | Being joined by an undirected walk is transitive |
| Properties.RankedIsAcyclic | backend/main.py:62 | A graph whose arcs all strictly increase some ranking of the vertices has no directed cycle |
| Properties.SelfLoopIsCycle | backend/main.py:58-65 | An edge whose source equals its target makes `is_dag` false and `has_cycles` true, whatever the other nodes and edges |
| Properties.OppositeEdgesAreCycle | backend/main.py:58-65 | Edges A->B and B->A together make `is_dag` false and `has_cycles` true |
| Properties.NoEdgesIsDag | backend/main.py:62-65 | With no edges the report is acyclic for every node list, the empty one included |
| Properties.NoEdgesTwoIdsDisconnected | backend/main.py:54-66 | With no edges, two different declared ids make `is_connected` false |
| Properties.CountsIgnoreCollapsing | backend/main.py:47-59 | A repeated id and a repeated edge each still count twice although the graph's vertex set is just {a, b}, only `a` carries a `type`, there is one arc, and the later node's type is that vertex's attribute |
| Properties.EmptyNodesVacuouslyConnected | backend/main.py:66 | With no nodes, edges A->B and C->D give a graph that is not weakly connected, yet the report says connected |
| Properties.EmptyPipeline | backend/main.py:43-76 | The empty request reports 0 nodes, 0 edges, acyclic, no cycles, connected, no types, success |
| Properties.SingleNode | backend/main.py:43-76 | One node of type input and no edges reports 1 node, acyclic, connected, types exactly ["input"] |
| Properties.Chain | backend/main.py:43-76 | The chain A->B->C reports 3 nodes, 2 edges, acyclic, connected, and types exactly input, process and output |
| Properties.TwoCycle | backend/main.py:43-76 | Nodes A, B with edges both ways report 2 nodes, 2 edges, not acyclic, has cycles |
| Properties.DisconnectedPair | backend/main.py:43-76 | Two unconnected input nodes report 2 nodes, acyclic, not connected, and the single type ["input"] |
| Properties.DanglingTarget | backend/main.py:43-76 | Node A with an edge to undeclared Z: Z becomes an untyped vertex, only A is counted, and the two-vertex graph is acyclic and connected |

## Left out

- The FastAPI application, the CORS middleware and the `/` ping route (backend/main.py:7-16, 35-37): transport, not evaluation.
- Request validation by pydantic (backend/main.py:18-33): the model takes already well-typed records. `Node.position` and `Node.data` are dropped because the evaluator never reads them; the edge's `id`, `sourceHandle` and `targetHandle` are kept as unused strings.
- The `except` branch that turns an exception into an HTTP 400 response (backend/main.py:78-79): the only exception the evaluated path could raise is networkx's refusal of an empty graph in `is_weakly_connected`, which the `num_nodes > 0` guard prevents; the model states that refusal as the precondition of `Connectivity.IsWeaklyConnectedFrom`, and `Evaluator.Evaluate` meets it on every input.
- The networkx implementations of `is_directed_acyclic_graph` and `is_weakly_connected`: replaced by their graph-theoretic definitions and by Kahn's algorithm and a reachability closure proved equal to them.
- The order of `node_types`: `list(set(...))` promises none, so the model fixes one (first occurrence) and its contract speaks only of contents and absence of duplicates.
