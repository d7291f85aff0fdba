/** Finite directed graphs given by adjacency lists, and reachability by walks. */
module Graphs {

  type Graph = map<nat, seq<nat>>

  predicate Edge(g: Graph, u: nat, v: nat) {
    u in g && v in g[u]
  }

  ghost predicate Walk(g: Graph, p: seq<nat>) {
    |p| > 0 && forall i :: 0 <= i < |p| - 1 ==> Edge(g, p[i], p[i + 1])
  }

  ghost predicate WalkBetween(g: Graph, u: nat, v: nat, p: seq<nat>) {
    Walk(g, p) && p[0] == u && p[|p| - 1] == v
  }

  /** Some walk, possibly the empty one, leads from `u` to `v`. */
  ghost predicate Reaches(g: Graph, u: nat, v: nat) {
    exists p :: WalkBetween(g, u, v, p)
  }

  /** Some walk of at least one edge leads from `u` to `v`. */
  ghost predicate ReachesProperly(g: Graph, u: nat, v: nat) {
    exists w :: Edge(g, u, w) && Reaches(g, w, v)
  }

  /** No node lies on a cycle. */
  ghost predicate Acyclic(g: Graph) {
    forall v :: !ReachesProperly(g, v, v)
  }

  lemma ReachesSelf(g: Graph, u: nat)
    ensures Reaches(g, u, u)
  {
    assert WalkBetween(g, u, u, [u]);
  }

  lemma ReachesStep(g: Graph, u: nat, v: nat, w: nat)
    requires Reaches(g, u, v) && Edge(g, v, w)
    ensures Reaches(g, u, w)
    ensures ReachesProperly(g, u, w)
  {
    var p :| WalkBetween(g, u, v, p);
    var q := p + [w];
    assert WalkBetween(g, u, w, q);
    assert Edge(g, q[0], q[1]);
    assert WalkBetween(g, q[1], w, q[1..]);
  }

  lemma ReachesFirst(g: Graph, u: nat, v: nat, w: nat)
    requires Edge(g, u, v) && Reaches(g, v, w)
    ensures Reaches(g, u, w)
  {
    var p :| WalkBetween(g, v, w, p);
    var q := [u] + p;
    forall i | 0 <= i < |q| - 1 ensures Edge(g, q[i], q[i + 1]) {
      if i > 0 { assert Edge(g, p[i - 1], p[i]); }
    }
    assert WalkBetween(g, u, w, q);
  }

  /** A set closed under edges holds everything its members reach. */
  lemma ClosedHoldsReachable(g: Graph, s: set<nat>, u: nat, v: nat)
    requires u in s && Reaches(g, u, v)
    requires forall x, y :: x in s && Edge(g, x, y) ==> y in s
    ensures v in s
  {
    var p :| WalkBetween(g, u, v, p);
    var i := 0;
    while i < |p| - 1
      invariant 0 <= i < |p| && p[i] in s
    {
      assert Edge(g, p[i], p[i + 1]);
      i := i + 1;
    }
  }
}
