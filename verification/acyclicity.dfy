/** An executable acyclicity test standing in for networkx's
    `is_directed_acyclic_graph`: Kahn's algorithm, removing at each round
    every vertex that has no incoming arc from the vertices still present.
    The graph is acyclic exactly when this empties the vertex set. */
module Acyclicity {
  import opened Pipeline
  import opened Digraph

  /** The vertices of `r` with no incoming arc from a vertex of `r`. */
  function Sources(g: Graph, r: set<Id>): set<Id>
  {
    set v | v in r && forall u | u in r :: (u, v) !in g.arcs
  }

  /** Peels source layers off `r` until nothing is left (true) or every
      remaining vertex has a predecessor among the remaining ones (false). */
  function PeelSources(g: Graph, r: set<Id>): (acyclic: bool)
    ensures acyclic <==> !HasCycleIn(g, r)
    decreases r
  {
    if r == {} then
      true
    else
      var s := Sources(g, r);
      if s == {} then
        StuckMeansCycle(g, r);
        false
      else
        PeelingKeepsCycles(g, r);
        PeelSources(g, r - s)
  }

  /** Kahn's test on the whole graph decides acyclicity. */
  function IsDag(g: Graph): (acyclic: bool)
    ensures acyclic <==> IsAcyclic(g)
  {
    PeelSources(g, g.vertices)
  }

  /** A source of `r` lies on no cycle through `r`: its predecessor on the
      cycle would be an arc into it from `r`. */
  lemma SourceOffCycle(g: Graph, r: set<Id>, p: seq<Id>, k: int)
    requires IsCycleIn(g, r, p)
    requires 0 <= k < |p|
    ensures p[k] !in Sources(g, r)
  {
    var pred := if k > 0 then k - 1 else |p| - 2;
    assert (p[pred], p[pred + 1]) in g.arcs;
    assert p[pred + 1] == p[k];
    assert p[pred] in r;
  }

  /** Removing the sources of `r` neither creates nor destroys a cycle. */
  lemma PeelingKeepsCycles(g: Graph, r: set<Id>)
    ensures HasCycleIn(g, r) <==> HasCycleIn(g, r - Sources(g, r))
  {
    var s := Sources(g, r);
    if p :| IsCycleIn(g, r, p) {
      forall k | 0 <= k < |p|
        ensures p[k] in r - s
      {
        SourceOffCycle(g, r, p, k);
      }
      assert IsCycleIn(g, r - s, p);
    }
    if p :| IsCycleIn(g, r - s, p) {
      assert IsCycleIn(g, r, p);
    }
  }

  /** When no vertex of a non-empty `r` is a source, walking backwards along
      arcs inside `r` must revisit a vertex, which closes a cycle. */
  lemma StuckMeansCycle(g: Graph, r: set<Id>)
    requires r != {}
    requires Sources(g, r) == {}
    ensures HasCycleIn(g, r)
  {
    var v :| v in r;
    WalkBack(g, r, [v]);
  }

  lemma {:induction false} WalkBack(g: Graph, r: set<Id>, w: seq<Id>)
    requires Sources(g, r) == {}
    requires |w| >= 1 && Within(w, r) && IsWalk(g, w)
    ensures HasCycleIn(g, r)
    decreases r - (set x | x in w)
  {
    assert w[0] !in Sources(g, r);
    var u :| u in r && (u, w[0]) in g.arcs;
    if j :| 0 <= j < |w| && w[j] == u {
      var c := w[..j + 1] + [w[0]];
      assert c[j] == u && c[j + 1] == w[0];
      forall i | 0 <= i < |c| - 1
        ensures (c[i], c[i + 1]) in g.arcs
      {
        if i < j {
          assert c[i] == w[i] && c[i + 1] == w[i + 1];
        }
      }
      assert IsCycleIn(g, r, c);
    } else {
      var w' := [u] + w;
      assert forall i | 0 <= i < |w| :: w'[i + 1] == w[i];
      assert IsWalk(g, w');
      assert u !in (set x | x in w);
      assert (set x | x in w') == (set x | x in w) + {u};
      WalkBack(g, r, w');
    }
  }
}
