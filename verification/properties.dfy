/** Properties of the evaluator that relate several calls or pin down its
    quirks, and a handful of example requests (empty request, single node,
    chain, two-node cycle, disconnected pair, dangling edge target). */
module Properties {
  import opened Pipeline
  import opened Digraph
  import opened Evaluator
  import Connectivity

  /** A vertex ranking that every arc strictly increases is a topological
      order; a graph that has one is acyclic. */
  lemma {:induction false} RankedWalkIncreases(g: Graph, rank: Id -> int, p: seq<Id>)
    requires forall a | a in g.arcs :: rank(a.0) < rank(a.1)
    requires |p| >= 2 && IsWalk(g, p)
    ensures rank(p[0]) < rank(p[|p| - 1])
    decreases |p|
  {
    assert (p[0], p[1]) in g.arcs;
    if |p| > 2 {
      var q := p[1..];
      assert IsWalk(g, q) by {
        forall i | 0 <= i < |q| - 1
          ensures (q[i], q[i + 1]) in g.arcs
        {
          assert q[i] == p[i + 1] && q[i + 1] == p[i + 2];
        }
      }
      RankedWalkIncreases(g, rank, q);
    }
  }

  lemma RankedIsAcyclic(g: Graph, rank: Id -> int)
    requires forall a | a in g.arcs :: rank(a.0) < rank(a.1)
    ensures IsAcyclic(g)
  {
    if p :| IsCycleIn(g, g.vertices, p) {
      RankedWalkIncreases(g, rank, p);
    }
  }

  /** An edge from a node to itself is a cycle, whatever else is present. */
  lemma SelfLoopIsCycle(nodes: seq<Node>, edges: seq<Edge>, i: int)
    requires 0 <= i < |edges| && edges[i].source == edges[i].target
    ensures !Evaluate(nodes, edges).isDag && Evaluate(nodes, edges).hasCycles
  {
    var g := BuildGraph(nodes, edges);
    var v := edges[i].source;
    assert edges[i] in edges;
    assert (v, v) in g.arcs;
    assert IsCycleIn(g, g.vertices, [v, v]);
  }

  /** Two edges in opposite directions between the same pair form a cycle. */
  lemma OppositeEdgesAreCycle(nodes: seq<Node>, edges: seq<Edge>, i: int, j: int)
    requires 0 <= i < |edges| && 0 <= j < |edges|
    requires edges[i].source == edges[j].target && edges[i].target == edges[j].source
    ensures !Evaluate(nodes, edges).isDag && Evaluate(nodes, edges).hasCycles
  {
    var g := BuildGraph(nodes, edges);
    var a, b := edges[i].source, edges[i].target;
    assert edges[i] in edges && edges[j] in edges;
    assert (a, b) in g.arcs && (b, a) in g.arcs;
    assert IsCycleIn(g, g.vertices, [a, b, a]);
  }

  /** Without edges there are no arcs, hence no cycle. */
  lemma NoEdgesIsDag(nodes: seq<Node>)
    ensures Evaluate(nodes, []).isDag && !Evaluate(nodes, []).hasCycles
  {
    RankedIsAcyclic(BuildGraph(nodes, []), _ => 0);
  }

  /** A set of vertices that no arc leaves or enters, with a vertex outside
      it, witnesses that the graph is not weakly connected. */
  lemma ClosedSetDisconnects(g: Graph, s: set<Id>, a: Id, b: Id)
    requires Connectivity.Step(g, s) == s
    requires a in s && a in g.vertices && b in g.vertices && b !in s
    ensures !WeaklyConnected(g)
  {
    Connectivity.ClosedHoldsLinked(g, s, a);
    assert !Linked(g, a, b);
  }

  /** Two distinct vertices and no arcs: the first is linked to nothing else. */
  lemma ArclessPairDisconnected(g: Graph, a: Id, b: Id)
    requires g.arcs == {} && a in g.vertices && b in g.vertices && a != b
    ensures !WeaklyConnected(g)
  {
    assert Connectivity.Step(g, {a}) == {a};
    ClosedSetDisconnects(g, {a}, a, b);
  }

  /** Without edges, two different declared ids make the graph disconnected:
      no walk leaves a vertex. */
  lemma NoEdgesTwoIdsDisconnected(nodes: seq<Node>, i: int, j: int)
    requires 0 <= i < |nodes| && 0 <= j < |nodes| && nodes[i].id != nodes[j].id
    ensures !Evaluate(nodes, []).isConnected
  {
    var g := BuildGraph(nodes, []);
    assert nodes[i] in nodes && nodes[j] in nodes;
    ArclessPairDisconnected(g, nodes[i].id, nodes[j].id);
  }

  /** The counts are the lengths of the request lists: two edges with the
      same endpoints are one arc of the graph but still count twice, and a
      repeated node id is one vertex but still counts twice. */
  lemma CountsIgnoreCollapsing(a: Id, b: Id)
    ensures var nodes := [Node(a, "input"), Node(a, "output")];
            var edges := [Edge("e1", a, b, "", ""), Edge("e2", a, b, "", "")];
            && Evaluate(nodes, edges).numNodes == 2 && Evaluate(nodes, edges).numEdges == 2
            && BuildGraph(nodes, edges).vertices == {a, b}
            && BuildGraph(nodes, edges).typeAttr.Keys == {a}
            && |BuildGraph(nodes, edges).arcs| == 1
            && BuildGraph(nodes, edges).typeAttr[a] == "output"
  {
    var nodes := [Node(a, "input"), Node(a, "output")];
    var edges := [Edge("e1", a, b, "", ""), Edge("e2", a, b, "", "")];
    assert nodes[0] in nodes && nodes[1] in nodes;
    assert edges[0] in edges && edges[1] in edges;
    assert DeclaredIds(nodes) == {a};
    assert Endpoints(edges) == {a, b};
    assert ArcsOf(edges) == {(a, b)};
    assert LastWithId(nodes, 1);
  }

  /** Arcs A->B and C->D only: {A, B} is closed, so C is out of A's reach. */
  lemma TwoSeparateArcsDisconnected(g: Graph)
    requires g.arcs == {("A", "B"), ("C", "D")} && "A" in g.vertices && "C" in g.vertices
    ensures !WeaklyConnected(g)
  {
    assert Connectivity.Step(g, {"A", "B"}) == {"A", "B"};
    ClosedSetDisconnects(g, {"A", "B"}, "A", "C");
  }

  /** With no nodes the report says connected even when the edges alone
      build a graph that is not weakly connected. */
  lemma EmptyNodesVacuouslyConnected(edges: seq<Edge>)
    requires edges == [Edge("e1", "A", "B", "", ""), Edge("e2", "C", "D", "", "")]
    ensures Evaluate([], edges).isConnected
    ensures !WeaklyConnected(BuildGraph([], edges))
  {
    var g := BuildGraph([], edges);
    assert edges[0] in edges && edges[1] in edges;
    assert ArcsOf(edges) == {("A", "B"), ("C", "D")};
    assert Endpoints(edges) == {"A", "B", "C", "D"};
    TwoSeparateArcsDisconnected(g);
  }

  /** Empty request: nothing counted, acyclic, connected, no types. */
  lemma EmptyPipeline()
    ensures Evaluate([], []) == Report(0, 0, true, false, true, [], "success")
  {
    NoEdgesIsDag([]);
  }

  /** A single node and no edges. */
  lemma SingleNode(nodes: seq<Node>)
    requires nodes == [Node("A", "input")]
    ensures Evaluate(nodes, []) == Report(1, 0, true, false, true, ["input"], "success")
  {
    var g := BuildGraph(nodes, []);
    NoEdgesIsDag(nodes);
    assert nodes[0] in nodes;
    assert g.vertices == {"A"};
    Connectivity.LinkedToSelf(g, "A");
    assert DistinctTypes(nodes) == ["input"];
  }

  /** Arcs A->B and B->C over {A, B, C}: ranked, and every vertex is linked to A. */
  lemma ChainGraph(g: Graph)
    requires g.arcs == {("A", "B"), ("B", "C")} && g.vertices == {"A", "B", "C"}
    ensures IsAcyclic(g) && WeaklyConnected(g)
  {
    RankedIsAcyclic(g, v => if v == "A" then 0 else if v == "B" then 1 else 2);
    assert IsUndirectedWalk(g, ["A"], "A", "A");
    assert IsUndirectedWalk(g, ["A", "B"], "A", "B");
    assert IsUndirectedWalk(g, ["A", "B", "C"], "A", "C");
    Connectivity.AllLinkedFromOne(g, "A");
  }

  /** The chain request builds arcs A->B, B->C over {A, B, C}. */
  lemma ChainBuild(nodes: seq<Node>, edges: seq<Edge>)
    requires nodes == [Node("A", "input"), Node("B", "process"), Node("C", "output")]
    requires edges == [Edge("e1", "A", "B", "", ""), Edge("e2", "B", "C", "", "")]
    ensures BuildGraph(nodes, edges).vertices == {"A", "B", "C"}
    ensures BuildGraph(nodes, edges).arcs == {("A", "B"), ("B", "C")}
  {
    assert nodes[0] in nodes && nodes[1] in nodes && nodes[2] in nodes;
    assert edges[0] in edges && edges[1] in edges;
    assert DeclaredIds(nodes) == {"A", "B", "C"};
    assert Endpoints(edges) == {"A", "B", "C"};
    assert ArcsOf(edges) == {("A", "B"), ("B", "C")};
  }

  /** The chain request's three node types. */
  lemma ChainTypes(nodes: seq<Node>)
    requires nodes == [Node("A", "input"), Node("B", "process"), Node("C", "output")]
    ensures TypesOf(nodes) == {"input", "process", "output"}
  {
    assert nodes[0] in nodes && nodes[1] in nodes && nodes[2] in nodes;
  }

  /** A chain input -> process -> output is acyclic and connected. */
  lemma Chain(nodes: seq<Node>, edges: seq<Edge>)
    requires nodes == [Node("A", "input"), Node("B", "process"), Node("C", "output")]
    requires edges == [Edge("e1", "A", "B", "", ""), Edge("e2", "B", "C", "", "")]
    ensures var r := Evaluate(nodes, edges);
            && r.numNodes == 3 && r.numEdges == 2
            && r.isDag && !r.hasCycles && r.isConnected
            && (forall t :: t in r.nodeTypes <==> t in {"input", "process", "output"})
  {
    ChainBuild(nodes, edges);
    ChainTypes(nodes);
    ChainGraph(BuildGraph(nodes, edges));
  }

  /** Two nodes joined both ways form a cycle. */
  lemma TwoCycle(nodes: seq<Node>, edges: seq<Edge>)
    requires nodes == [Node("A", "input"), Node("B", "output")]
    requires edges == [Edge("e1", "A", "B", "", ""), Edge("e2", "B", "A", "", "")]
    ensures var r := Evaluate(nodes, edges);
            r.numNodes == 2 && r.numEdges == 2 && !r.isDag && r.hasCycles
  {
    OppositeEdgesAreCycle(nodes, edges, 0, 1);
  }

  /** Two unconnected nodes of the same type: disconnected, one type. */
  lemma DisconnectedPair(nodes: seq<Node>)
    requires nodes == [Node("A", "input"), Node("B", "input")]
    ensures Evaluate(nodes, []) == Report(2, 0, true, false, false, ["input"], "success")
  {
    NoEdgesIsDag(nodes);
    NoEdgesTwoIdsDisconnected(nodes, 0, 1);
    assert nodes[0] in nodes && nodes[1] in nodes;
    assert nodes[..1] == [Node("A", "input")];
    assert DistinctTypes(nodes[..1]) == ["input"];
  }

  /** A single arc A->Z over {A, Z}: ranked, and Z is linked to A. */
  lemma SingleArcGraph(g: Graph)
    requires g.arcs == {("A", "Z")} && g.vertices == {"A", "Z"}
    ensures IsAcyclic(g) && WeaklyConnected(g)
  {
    RankedIsAcyclic(g, v => if v == "A" then 0 else 1);
    assert IsUndirectedWalk(g, ["A"], "A", "A");
    assert IsUndirectedWalk(g, ["A", "Z"], "A", "Z");
    Connectivity.AllLinkedFromOne(g, "A");
  }

  /** An edge to an undeclared id: the id becomes an untyped vertex, only
      the declared node is counted, and the two-vertex graph is acyclic and
      connected. */
  lemma DanglingTarget(nodes: seq<Node>, edges: seq<Edge>)
    requires nodes == [Node("A", "input")]
    requires edges == [Edge("e1", "A", "Z", "", "")]
    ensures var g := BuildGraph(nodes, edges);
            g.vertices == {"A", "Z"} && "Z" !in g.typeAttr
    ensures var r := Evaluate(nodes, edges);
            && r.numNodes == 1 && r.numEdges == 1
            && r.isDag && r.isConnected
  {
    var g := BuildGraph(nodes, edges);
    assert nodes[0] in nodes && edges[0] in edges;
    assert ArcsOf(edges) == {("A", "Z")};
    assert DeclaredIds(nodes) == {"A"};
    assert Endpoints(edges) == {"A", "Z"};
    SingleArcGraph(g);
  }
}
