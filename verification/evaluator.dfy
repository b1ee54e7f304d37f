/** `parse_pipeline`: builds the directed graph from the request's nodes and
    edges and reports its size, whether it is acyclic, whether it is weakly
    connected, and which node types occur. */
module Evaluator {
  import opened Pipeline
  import opened Digraph
  import Acyclicity
  import Connectivity

  /** The response body. `nodeTypes` is `list(set(...))`: duplicate-free,
      in no promised order. */
  datatype Report = Report(
    numNodes: nat,
    numEdges: nat,
    isDag: bool,
    hasCycles: bool,
    isConnected: bool,
    nodeTypes: seq<string>,
    status: string)

  /** No later node in `nodes` repeats the id of `nodes[i]`. */
  ghost predicate LastWithId(nodes: seq<Node>, i: int)
    requires 0 <= i < |nodes|
  {
    forall j | i < j < |nodes| :: nodes[j].id != nodes[i].id
  }

  /** The node loop: `add_node(node.id, type=node.type)` for each node in
      order. Every id becomes a vertex; a repeated id adds no vertex and its
      last occurrence decides the `type` attribute. */
  function AddNodes(g: Graph, nodes: seq<Node>): (r: Graph)
    ensures r.vertices == g.vertices + DeclaredIds(nodes)
    ensures r.arcs == g.arcs
    ensures r.typeAttr.Keys == g.typeAttr.Keys + DeclaredIds(nodes)
    ensures forall i | 0 <= i < |nodes| && LastWithId(nodes, i) :: r.typeAttr[nodes[i].id] == nodes[i].nodeType
    ensures forall x | x in g.typeAttr && x !in DeclaredIds(nodes) :: r.typeAttr[x] == g.typeAttr[x]
  {
    if |nodes| == 0 then g
    else
      var init := nodes[..|nodes| - 1];
      var last := nodes[|nodes| - 1];
      LastOccurrenceSplit(nodes, init, last);
      AddNode(AddNodes(g, init), last.id, last.nodeType)
  }

  /** How the declared ids and the last occurrences of `init + [last]`
      relate to those of `init`. */
  lemma LastOccurrenceSplit(nodes: seq<Node>, init: seq<Node>, last: Node)
    requires nodes == init + [last]
    ensures DeclaredIds(nodes) == DeclaredIds(init) + {last.id}
    ensures forall i | 0 <= i < |init| && LastWithId(nodes, i) :: LastWithId(init, i) && init[i].id != last.id
  {
    forall i | 0 <= i < |init| && LastWithId(nodes, i)
      ensures LastWithId(init, i) && init[i].id != last.id
    {
      assert forall j | i < j < |init| :: init[j] == nodes[j];
      assert nodes[|init|] == last;
    }
  }

  /** The edge loop: `add_edge(edge.source, edge.target)` for each edge.
      Both endpoints become vertices, declared or not; repeated edges give
      one arc; `type` attributes are untouched. */
  function AddEdges(g: Graph, edges: seq<Edge>): (r: Graph)
    ensures r.vertices == g.vertices + Endpoints(edges)
    ensures r.arcs == g.arcs + ArcsOf(edges)
    ensures r.typeAttr == g.typeAttr
  {
    if |edges| == 0 then g
    else
      var init := edges[..|edges| - 1];
      var last := edges[|edges| - 1];
      assert edges == init + [last];
      AddEdge(AddEdges(g, init), last.source, last.target)
  }

  /** The graph `parse_pipeline` builds: nodes first, then edges. */
  function BuildGraph(nodes: seq<Node>, edges: seq<Edge>): (g: Graph)
    ensures g.vertices == DeclaredIds(nodes) + Endpoints(edges)
    ensures g.arcs == ArcsOf(edges)
    ensures g.typeAttr.Keys == DeclaredIds(nodes)
    ensures WellFormed(g)
  {
    AddEdges(AddNodes(EmptyGraph, nodes), edges)
  }

  /** The distinct node types, each once, in order of first occurrence
      (one of the orders `list(set(...))` may produce). */
  function DistinctTypes(nodes: seq<Node>): (types: seq<string>)
    ensures Distinct(types)
    ensures forall t :: t in types <==> t in TypesOf(nodes)
  {
    if |nodes| == 0 then []
    else
      var init := nodes[..|nodes| - 1];
      var last := nodes[|nodes| - 1];
      assert nodes == init + [last];
      var types := DistinctTypes(init);
      if last.nodeType in types then types else types + [last.nodeType]
  }

  /** The evaluator. Counts come from the request lists, not the graph; the
      cycle and connectivity answers are about the graph, dangling edge
      endpoints included; with no nodes the graph counts as connected. */
  function Evaluate(nodes: seq<Node>, edges: seq<Edge>): (r: Report)
    ensures r.numNodes == |nodes| && r.numEdges == |edges|
    ensures r.isDag <==> IsAcyclic(BuildGraph(nodes, edges))
    ensures r.hasCycles <==> !r.isDag
    ensures |nodes| == 0 ==> r.isConnected
    ensures |nodes| > 0 ==> (r.isConnected <==> WeaklyConnected(BuildGraph(nodes, edges)))
    ensures Distinct(r.nodeTypes)
    ensures forall t :: t in r.nodeTypes <==> t in TypesOf(nodes)
    ensures r.status == "success"
  {
    var g := BuildGraph(nodes, edges);
    var isDag := Acyclicity.IsDag(g);
    var isConnected :=
      if |nodes| > 0 then
        assert nodes[0] in nodes;
        Connectivity.IsWeaklyConnectedFrom(g, nodes[0].id)
      else true;
    Report(|nodes|, |edges|, isDag, !isDag, isConnected, DistinctTypes(nodes), "success")
  }
}
