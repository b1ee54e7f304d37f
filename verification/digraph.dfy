/** The directed graph the evaluator builds (a networkx `DiGraph`), the two
    graph operations it uses to build it, and the graph-theoretic meaning of
    the two questions it asks of it: is there a directed cycle, and is the
    graph weakly connected. */
module Digraph {
  import opened Pipeline

  /** `vertices` and `arcs` are the graph proper; `typeAttr` is the `type`
      attribute that `add_node` attaches to a vertex. A vertex that only an
      edge created has no such attribute. */
  datatype Graph = Graph(vertices: set<Id>, arcs: set<(Id, Id)>, typeAttr: map<Id, string>)

  /** A graph with no vertices. */
  const EmptyGraph := Graph({}, {}, map[])

  /** `add_node(id, type=t)`: adds the vertex if absent and (re)sets its `type` attribute. */
  function AddNode(g: Graph, id: Id, t: string): Graph
  {
    g.(vertices := g.vertices + {id}, typeAttr := g.typeAttr[id := t])
  }

  /** `add_edge(u, v)`: adds both endpoints as vertices if absent, leaving
      existing `type` attributes alone, and adds the arc; a second identical arc is the
      same arc. */
  function AddEdge(g: Graph, u: Id, v: Id): Graph
  {
    g.(vertices := g.vertices + {u, v}, arcs := g.arcs + {(u, v)})
  }

  /** Every arc joins two vertices and only vertices carry a `type` attribute. */
  ghost predicate WellFormed(g: Graph)
  {
    && (forall a | a in g.arcs :: a.0 in g.vertices && a.1 in g.vertices)
    && g.typeAttr.Keys <= g.vertices
  }

  /** Every element of `p` lies in `r`. */
  ghost predicate Within(p: seq<Id>, r: set<Id>)
  {
    forall i | 0 <= i < |p| :: p[i] in r
  }

  // ----- directed cycles -----

  /** Consecutive elements of `p` are joined by arcs. */
  ghost predicate IsWalk(g: Graph, p: seq<Id>)
  {
    forall i | 0 <= i < |p| - 1 :: (p[i], p[i + 1]) in g.arcs
  }

  /** `p` is a closed walk of at least one arc through vertices of `r`;
      a self-loop `[v, v]` is the shortest one. */
  ghost predicate IsCycleIn(g: Graph, r: set<Id>, p: seq<Id>)
  {
    |p| >= 2 && p[0] == p[|p| - 1] && Within(p, r) && IsWalk(g, p)
  }

  ghost predicate HasCycleIn(g: Graph, r: set<Id>)
  {
    exists p :: IsCycleIn(g, r, p)
  }

  /** The graph has a directed cycle. */
  ghost predicate HasCycle(g: Graph)
  {
    HasCycleIn(g, g.vertices)
  }

  /** A directed acyclic graph: no directed cycle. */
  ghost predicate IsAcyclic(g: Graph)
  {
    !HasCycle(g)
  }

  // ----- weak connectivity -----

  /** `u` and `v` are joined by an arc in one direction or the other. */
  predicate Adjacent(g: Graph, u: Id, v: Id)
  {
    (u, v) in g.arcs || (v, u) in g.arcs
  }

  /** `p` is a walk from `u` to `v` through vertices of the graph that may
      follow arcs in either direction. */
  ghost predicate IsUndirectedWalk(g: Graph, p: seq<Id>, u: Id, v: Id)
  {
    && |p| >= 1 && p[0] == u && p[|p| - 1] == v
    && Within(p, g.vertices)
    && forall i | 0 <= i < |p| - 1 :: Adjacent(g, p[i], p[i + 1])
  }

  ghost predicate Linked(g: Graph, u: Id, v: Id)
  {
    exists p :: IsUndirectedWalk(g, p, u, v)
  }

  /** Weakly connected: ignoring directions, every pair of vertices is joined
      by a walk. */
  ghost predicate WeaklyConnected(g: Graph)
  {
    forall u, v | u in g.vertices && v in g.vertices :: Linked(g, u, v)
  }
}
