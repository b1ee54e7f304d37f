/** The request payload of the pipeline-parsing endpoint: the nodes and edges
    drawn in the editor. Only the fields the evaluator reads carry meaning;
    the edge's id and handles are kept as opaque strings. */
module Pipeline {

  /** Node and edge identifiers are plain strings. */
  type Id = string

  /** A pipeline stage. `nodeType` is the `type` field of the request
      (`type` is a Dafny keyword). */
  datatype Node = Node(id: Id, nodeType: string)

  /** A directed connection `source -> target` between two stages. */
  datatype Edge = Edge(id: string, source: Id, target: Id, sourceHandle: string, targetHandle: string)

  /** The ids of the explicitly supplied nodes (a repeated id counts once). */
  function DeclaredIds(nodes: seq<Node>): set<Id>
  {
    set n | n in nodes :: n.id
  }

  /** The `type` values of the explicitly supplied nodes. */
  function TypesOf(nodes: seq<Node>): set<string>
  {
    set n | n in nodes :: n.nodeType
  }

  /** Every edge endpoint, source or target, declared or not. */
  function Endpoints(edges: seq<Edge>): set<Id>
  {
    (set e | e in edges :: e.source) + (set e | e in edges :: e.target)
  }

  /** The arcs the edges describe; two edges with the same endpoints give one arc. */
  function ArcsOf(edges: seq<Edge>): set<(Id, Id)>
  {
    set e | e in edges :: (e.source, e.target)
  }

  /** No element occurs twice. */
  predicate Distinct<T(==)>(s: seq<T>)
  {
    forall i, j | 0 <= i < j < |s| :: s[i] != s[j]
  }
}
