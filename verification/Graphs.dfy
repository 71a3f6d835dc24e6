/** Reachability in a finite directed graph, and lists without repetition. */
module Graphs {

  /** The successors of each node. */
  type Graph = map<nat, set<nat>>

  predicate Edge(g: Graph, x: nat, y: nat) {
    x in g && y in g && y in g[x]
  }

  ghost predicate IsPath(g: Graph, root: nat, p: seq<nat>) {
    && p != [] && p[0] == root && root in g
    && forall i :: 0 < i < |p| ==> Edge(g, p[i - 1], p[i])
  }

  ghost predicate Reachable(g: Graph, root: nat, x: nat) {
    exists p :: IsPath(g, root, p) && p[|p| - 1] == x
  }

  lemma RootReachable(g: Graph, root: nat)
    requires root in g
    ensures Reachable(g, root, root)
  {
    assert IsPath(g, root, [root]);
  }

  lemma ExtendReachable(g: Graph, root: nat, x: nat, y: nat)
    requires Reachable(g, root, x) && Edge(g, x, y)
    ensures Reachable(g, root, y)
  {
    var p :| IsPath(g, root, p) && p[|p| - 1] == x;
    assert IsPath(g, root, p + [y]);
    assert (p + [y])[|p + [y]| - 1] == y;
  }

  /** q holds the root, if it is a node, and the successors of everything it holds. */
  ghost predicate Closed(g: Graph, root: nat, q: seq<nat>) {
    && (root in g ==> root in q)
    && forall x, y :: x in q && Edge(g, x, y) ==> y in q
  }

  /** A closed list holds everything reachable. */
  lemma ClosedHoldsReachable(g: Graph, root: nat, q: seq<nat>, x: nat)
    requires Closed(g, root, q) && Reachable(g, root, x)
    ensures x in q
  {
    var p :| IsPath(g, root, p) && p[|p| - 1] == x;
    PathStaysInside(g, root, q, p, |p| - 1);
  }

  lemma {:induction false} PathStaysInside(g: Graph, root: nat, q: seq<nat>, p: seq<nat>, k: nat)
    requires Closed(g, root, q) && IsPath(g, root, p) && k < |p|
    ensures p[k] in q
  {
    if k > 0 {
      PathStaysInside(g, root, q, p, k - 1);
      assert Edge(g, p[k - 1], p[k]);
    }
  }

  ghost predicate NoRepeats(q: seq<nat>) {
    forall i, j :: 0 <= i < j < |q| ==> q[i] != q[j]
  }

  /** A list without repeats of members of a set is no longer than the set, and covers it when it is as long. */
  lemma {:induction false} Pigeonhole(q: seq<nat>, ids: set<nat>)
    requires NoRepeats(q) && forall i :: 0 <= i < |q| ==> q[i] in ids
    ensures |q| <= |ids|
    ensures |q| == |ids| ==> forall x :: x in ids ==> x in q
    decreases |q|
  {
    if q != [] {
      var last, front := q[|q| - 1], q[..|q| - 1];
      Pigeonhole(front, ids - {last});
      assert forall x :: x in front ==> x in q;
      assert last in q;
    }
  }

  lemma NoRepeatsConcat(a: seq<nat>, b: seq<nat>)
    requires NoRepeats(a) && NoRepeats(b) && forall x :: x in a ==> x !in b
    ensures NoRepeats(a + b)
  {
    forall i, j | 0 <= i < j < |a + b|
      ensures (a + b)[i] != (a + b)[j]
    {
      if i < |a| <= j {
        assert a[i] in a && b[j - |a|] in b;
      }
    }
  }
}
