/** An executable weak-connectivity test standing in for networkx's
    `is_weakly_connected`: grow the set of vertices reachable from a start
    vertex, following arcs in either direction, until it stops growing; the
    graph is weakly connected exactly when that set is every vertex. */
module Connectivity {
  import opened Pipeline
  import opened Digraph

  /** `s` together with every vertex adjacent to a member of `s`. */
  function Step(g: Graph, s: set<Id>): set<Id>
  {
    s + set v | v in g.vertices && exists u | u in s :: Adjacent(g, u, v)
  }

  /** The vertices linked to `start`, computed by growing `s` to a fixpoint.
      `s` holds vertices already known to be linked to `start`. */
  function Explore(g: Graph, ghost start: Id, s: set<Id>): (reach: set<Id>)
    requires start in s && s <= g.vertices
    requires forall v | v in s :: Linked(g, start, v)
    ensures forall v :: v in reach <==> v in g.vertices && Linked(g, start, v)
    decreases g.vertices - s
  {
    var next := Step(g, s);
    if next == s then
      ClosedHoldsLinked(g, s, start);
      s
    else
      StepStaysLinked(g, start, s);
      Explore(g, start, next)
  }

  /** Weak connectivity decided by one search from `start`. The library
      raises on a graph with no vertices; here a start vertex is required. */
  function IsWeaklyConnectedFrom(g: Graph, start: Id): (connected: bool)
    requires start in g.vertices
    ensures connected <==> WeaklyConnected(g)
  {
    LinkedToSelf(g, start);
    var reach := Explore(g, start, {start});
    if reach == g.vertices then
      AllLinkedFromOne(g, start);
      true
    else
      assert exists v :: v in g.vertices && v !in reach;
      false
  }

  lemma LinkedToSelf(g: Graph, v: Id)
    requires v in g.vertices
    ensures Linked(g, v, v)
  {
    assert IsUndirectedWalk(g, [v], v, v);
  }

  /** Every vertex `Step` adds is adjacent to one already linked to `start`. */
  lemma StepStaysLinked(g: Graph, start: Id, s: set<Id>)
    requires forall v | v in s :: Linked(g, start, v)
    ensures forall v | v in Step(g, s) :: Linked(g, start, v)
  {
    forall v | v in Step(g, s) && v !in s
      ensures Linked(g, start, v)
    {
      var u :| u in s && Adjacent(g, u, v);
      var p :| IsUndirectedWalk(g, p, start, u);
      assert IsUndirectedWalk(g, p + [v], start, v);
    }
  }

  /** A walk that starts inside a set closed under `Step` never leaves it. */
  lemma {:induction false} ClosedHoldsWalk(g: Graph, s: set<Id>, p: seq<Id>, u: Id, v: Id)
    requires Step(g, s) == s
    requires IsUndirectedWalk(g, p, u, v)
    requires u in s
    ensures v in s
    decreases |p|
  {
    if |p| > 1 {
      var q := p[..|p| - 1];
      var w := q[|q| - 1];
      assert IsUndirectedWalk(g, q, u, w);
      ClosedHoldsWalk(g, s, q, u, w);
      assert Adjacent(g, w, v) && v in g.vertices;
      assert v in Step(g, s);
    }
  }

  /** A set closed under `Step` holds everything linked to its members. */
  lemma ClosedHoldsLinked(g: Graph, s: set<Id>, start: Id)
    requires Step(g, s) == s && start in s
    ensures forall v | Linked(g, start, v) :: v in s
  {
    forall v | Linked(g, start, v)
      ensures v in s
    {
      var p :| IsUndirectedWalk(g, p, start, v);
      ClosedHoldsWalk(g, s, p, start, v);
    }
  }

  /** Walks can be read backwards, since adjacency ignores direction. */
  lemma LinkedSymmetric(g: Graph, u: Id, v: Id)
    requires Linked(g, u, v)
    ensures Linked(g, v, u)
  {
    var p :| IsUndirectedWalk(g, p, u, v);
    var q := seq(|p|, i requires 0 <= i < |p| => p[|p| - 1 - i]);
    forall i | 0 <= i < |q| - 1
      ensures Adjacent(g, q[i], q[i + 1])
    {
      assert Adjacent(g, p[|p| - 2 - i], p[|p| - 1 - i]);
    }
    assert IsUndirectedWalk(g, q, v, u);
  }

  /** Walks can be joined end to start. */
  lemma LinkedTransitive(g: Graph, u: Id, v: Id, w: Id)
    requires Linked(g, u, v) && Linked(g, v, w)
    ensures Linked(g, u, w)
  {
    var p :| IsUndirectedWalk(g, p, u, v);
    var q :| IsUndirectedWalk(g, q, v, w);
    var c := p + q[1..];
    forall i | 0 <= i < |c| - 1
      ensures Adjacent(g, c[i], c[i + 1])
    {
      if i < |p| - 1 {
        assert c[i] == p[i] && c[i + 1] == p[i + 1];
      } else {
        var k := i - (|p| - 1);
        assert c[i] == q[k] && c[i + 1] == q[k + 1];
      }
    }
    assert IsUndirectedWalk(g, c, u, w);
  }

  /** If one vertex is linked to every vertex, every pair is linked. */
  lemma AllLinkedFromOne(g: Graph, start: Id)
    requires forall v | v in g.vertices :: Linked(g, start, v)
    ensures WeaklyConnected(g)
  {
    forall u, v | u in g.vertices && v in g.vertices
      ensures Linked(g, u, v)
    {
      LinkedSymmetric(g, start, u);
      LinkedTransitive(g, u, start, v);
    }
  }
}
