/**
 * Reachability over a finite directed relation given as a set of edges.
 * Both graph representations of the system (the id-keyed adjacency lists of
 * the causal model and the predecessor matrix of the planner) are turned into
 * such an edge set, so "everything reachable from a part" is defined once.
 */
module Reachability {
  /** `p` is a non-empty walk in which every step is an edge. */
  ghost predicate IsWalk<T(!new)>(edges: set<(T, T)>, p: seq<T>) {
    |p| > 0 && forall k :: 0 <= k < |p| - 1 ==> (p[k], p[k + 1]) in edges
  }

  /** `x` is reachable from `a` in zero or more steps. */
  ghost predicate Reaches<T(!new)>(edges: set<(T, T)>, a: T, x: T) {
    exists p :: IsWalk(edges, p) && p[0] == a && p[|p| - 1] == x
  }

  /** No edge leaves `s`. */
  ghost predicate Closed<T(!new)>(edges: set<(T, T)>, s: set<T>) {
    forall y, z :: y in s && (y, z) in edges ==> z in s
  }

  lemma ReachesRefl<T(!new)>(edges: set<(T, T)>, a: T)
    ensures Reaches(edges, a, a)
  {
    assert IsWalk(edges, [a]);
  }

  /** A reachable node's successor is reachable. */
  lemma ReachesStep<T(!new)>(edges: set<(T, T)>, a: T, y: T, z: T)
    requires Reaches(edges, a, y) && (y, z) in edges
    ensures Reaches(edges, a, z)
  {
    var p :| IsWalk(edges, p) && p[0] == a && p[|p| - 1] == y;
    var q := p + [z];
    assert forall k :: 0 <= k < |p| ==> q[k] == p[k];
    assert IsWalk(edges, q);
  }

  /** Whatever a successor of `a` reaches, `a` reaches too. */
  lemma ReachesPrepend<T(!new)>(edges: set<(T, T)>, a: T, y: T, x: T)
    requires (a, y) in edges && Reaches(edges, y, x)
    ensures Reaches(edges, a, x)
  {
    var p :| IsWalk(edges, p) && p[0] == y && p[|p| - 1] == x;
    var q := [a] + p;
    assert forall k :: 1 <= k < |q| ==> q[k] == p[k - 1];
    assert IsWalk(edges, q);
  }

  /** A closed set that holds `a` holds everything reachable from `a`. */
  lemma {:induction false} ClosedContainsReachable<T(!new)>(edges: set<(T, T)>, s: set<T>, a: T, x: T)
    requires a in s && Closed(edges, s)
    requires Reaches(edges, a, x)
    ensures x in s
  {
    var p :| IsWalk(edges, p) && p[0] == a && p[|p| - 1] == x;
    var k := 0;
    while k < |p| - 1
      invariant 0 <= k < |p| && p[k] in s
    {
      assert (p[k], p[k + 1]) in edges;
      k := k + 1;
    }
  }
}
