/** The order in which sub-systems are restored: an explicit-stack walk over a dependency graph that may have cycles. */
module RecoveryOrder {
  import opened Graphs
  import opened Sequences

  const VISITED_SLOTS: nat := 64

  datatype Registered = Registered(id: nat, deps: seq<nat>)

  type Registry = seq<Registered>

  function Ids(reg: Registry): (ids: seq<nat>)
    ensures |ids| == |reg| && forall i :: 0 <= i < |reg| ==> ids[i] == reg[i].id
  {
    seq(|reg|, (i: int) requires 0 <= i < |reg| => reg[i].id)
  }

  predicate Known(reg: Registry, x: nat) {
    FirstIndex(Ids(reg), x) < |reg|
  }

  function DepsOf(reg: Registry, x: nat): seq<nat> {
    var k := FirstIndex(Ids(reg), x);
    if k < |reg| then reg[k].deps else []
  }

  /** Registered domains and their registered dependencies. */
  function DepGraph(reg: Registry): (g: Graph)
    ensures forall x :: x in g <==> Known(reg, x)
    ensures forall x, y :: Edge(g, x, y) <==> Known(reg, x) && Known(reg, y) && y in DepsOf(reg, x)
  {
    map r | r in reg && Known(reg, r.id) :: r.id := set y | y in DepsOf(reg, r.id) && Known(reg, y)
  }

  // ----- the stack walk

  /** Progress of the walk: `order` lists reachable domains once each; what they still need is on the stack. */
  ghost predicate Walking(g: Graph, root: nat, order: seq<nat>, stack: seq<nat>) {
    && NoRepeats(order)
    && (forall x :: x in order ==> x in g && Reachable(g, root, x))
    && (forall x :: x in stack && x in g ==> Reachable(g, root, x))
    && (forall x, y :: x in order && Edge(g, x, y) ==> y in order || y in stack)
    && (root in g ==> root in order || root in stack)
    && (order != [] ==> order[0] == root)
    && (order == [] ==> forall x :: x in stack ==> x == root)
  }

  lemma WalkStart(g: Graph, root: nat)
    ensures Walking(g, root, [], [root])
  {
    if root in g {
      RootReachable(g, root);
    }
  }

  /** Dropping an unknown or finished domain from the top of the stack. */
  lemma WalkSkip(g: Graph, root: nat, order: seq<nat>, stack: seq<nat>)
    requires stack != [] && Walking(g, root, order, stack)
    requires stack[|stack| - 1] !in g || stack[|stack| - 1] in order
    ensures Walking(g, root, order, stack[..|stack| - 1])
  {
    hide Edge, Reachable;
    var top, rest := stack[|stack| - 1], stack[..|stack| - 1];
    assert stack == rest + [top];
    assert forall x :: x in rest ==> x in stack;
    EdgesEnd(g);
  }

  lemma EdgesEnd(g: Graph)
    ensures forall x, y :: Edge(g, x, y) ==> x in g && y in g
  {
  }

  /** Finishing a domain: it joins the order and its unfinished dependencies the stack. */
  lemma WalkVisit(g: Graph, root: nat, order: seq<nat>, stack: seq<nat>, stack': seq<nat>)
    requires stack != [] && Walking(g, root, order, stack)
    requires var id := stack[|stack| - 1];
      && id in g && id !in order
      && (forall x :: x in stack[..|stack| - 1] ==> x in stack')
      && (forall x :: x in stack' ==> x in stack[..|stack| - 1] || Edge(g, id, x))
      && (forall y :: Edge(g, id, y) ==> y == id || y in order || y in stack')
    ensures Walking(g, root, order + [stack[|stack| - 1]], stack')
  {
    hide Edge, Reachable;
    var id, rest := stack[|stack| - 1], stack[..|stack| - 1];
    assert stack == rest + [id] && id in stack;
    assert forall x :: x in rest ==> x in stack;
    assert forall x :: x in stack ==> x in rest || x == id;
    assert forall x :: x in order + [id] ==> x in order || x == id;
    assert forall x :: x in order ==> x in order + [id];
    assert id in order + [id];
    EdgesEnd(g);
    forall x | x in stack' && x in g
      ensures Reachable(g, root, x)
    {
      if x !in rest {
        ExtendReachable(g, root, id, x);
      }
    }
  }

  /** An empty stack means the order holds exactly the reachable domains. */
  lemma WalkEnd(g: Graph, root: nat, order: seq<nat>, x: nat)
    requires Walking(g, root, order, [])
    ensures x in order <==> Reachable(g, root, x)
  {
    hide Edge, Reachable;
    if Reachable(g, root, x) {
      ClosedHoldsReachable(g, root, order, x);
    }
  }

  // ----- the order of the walk

  /** The registered ids of q that are not in `seen`, in the order of q. */
  function Pending(reg: Registry, seen: seq<nat>, q: seq<nat>): seq<nat> {
    if q == [] then []
    else
      var front, x := Pending(reg, seen, q[..|q| - 1]), q[|q| - 1];
      if Known(reg, x) && x !in seen then front + [x] else front
  }

  lemma {:induction false} PendingConcat(reg: Registry, seen: seq<nat>, a: seq<nat>, b: seq<nat>)
    ensures Pending(reg, seen, a + b) == Pending(reg, seen, a) + Pending(reg, seen, b)
    decreases |b|
  {
    hide Known;
    if b == [] {
      assert a + b == a;
    } else {
      var front := b[..|b| - 1];
      assert (a + b)[..|a + b| - 1] == a + front;
      PendingConcat(reg, seen, a, front);
    }
  }

  lemma {:induction false} PendingHolds(reg: Registry, seen: seq<nat>, q: seq<nat>, x: nat)
    ensures x in Pending(reg, seen, q) <==> x in q && Known(reg, x) && x !in seen
    decreases |q|
  {
    hide Known;
    if q != [] {
      PendingHolds(reg, seen, q[..|q| - 1], x);
      assert q == q[..|q| - 1] + [q[|q| - 1]];
    }
  }

  /** Looking again after one more id was seen drops that id only. */
  lemma {:induction false} PendingMore(reg: Registry, seen: seq<nat>, x: nat, q: seq<nat>)
    ensures Pending(reg, seen + [x], Pending(reg, seen, q)) == Pending(reg, seen + [x], q)
    decreases |q|
  {
    hide Known;
    if q != [] {
      var front, y := q[..|q| - 1], q[|q| - 1];
      PendingMore(reg, seen, x, front);
      if Known(reg, y) && y !in seen {
        PendingConcat(reg, seen + [x], Pending(reg, seen, front), [y]);
        PendingOne(reg, seen + [x], y);
      }
    }
  }

  lemma PendingOne(reg: Registry, seen: seq<nat>, y: nat)
    ensures Pending(reg, seen, [y]) == if Known(reg, y) && y !in seen then [y] else []
  {
    hide Known;
    assert [y][..0] == [];
  }

  lemma {:induction false} PendingTwice(reg: Registry, seen: seq<nat>, q: seq<nat>)
    ensures Pending(reg, seen, Pending(reg, seen, q)) == Pending(reg, seen, q)
    decreases |q|
  {
    hide Known;
    if q != [] {
      var front, y := q[..|q| - 1], q[|q| - 1];
      PendingTwice(reg, seen, front);
      if Known(reg, y) && y !in seen {
        PendingConcat(reg, seen, Pending(reg, seen, front), [y]);
        PendingOne(reg, seen, y);
      }
    }
  }

  /** What the root and then the first n domains of `seen` still ask for. */
  function Outstanding(reg: Registry, root: nat, seen: seq<nat>, n: nat): seq<nat>
    requires n <= |seen|
  {
    if n == 0 then Pending(reg, seen, [root])
    else Outstanding(reg, root, seen, n - 1) + Pending(reg, seen, DepsOf(reg, seen[n - 1]))
  }

  lemma {:induction false} OutstandingMore(reg: Registry, root: nat, seen: seq<nat>, x: nat, n: nat)
    requires n <= |seen|
    ensures Outstanding(reg, root, seen + [x], n) == Pending(reg, seen + [x], Outstanding(reg, root, seen, n))
  {
    hide Pending, DepsOf;
    if n == 0 {
      PendingMore(reg, seen, x, [root]);
    } else {
      OutstandingMore(reg, root, seen, x, n - 1);
      PendingMore(reg, seen, x, DepsOf(reg, seen[n - 1]));
      PendingConcat(reg, seen + [x], Outstanding(reg, root, seen, n - 1), Pending(reg, seen, DepsOf(reg, seen[n - 1])));
    }
  }

  /** Depth first: each domain is the last one asked for and not visited when its turn comes. */
  ghost predicate DepthFirst(reg: Registry, root: nat, order: seq<nat>) {
    forall i: nat :: i < |order| ==> NextIs(reg, root, order[..i], order[i])
  }

  ghost predicate NextIs(reg: Registry, root: nat, seen: seq<nat>, x: nat) {
    var asked := Outstanding(reg, root, seen, |seen|);
    asked != [] && asked[|asked| - 1] == x
  }

  /** The stack holds what is outstanding, besides ids that are unknown or visited. */
  ghost predicate StackMatches(reg: Registry, root: nat, order: seq<nat>, stack: seq<nat>) {
    Pending(reg, order, stack) == Outstanding(reg, root, order, |order|)
  }

  lemma StackStart(reg: Registry, root: nat)
    ensures StackMatches(reg, root, [], [root]) && DepthFirst(reg, root, [])
  {
  }

  lemma StackSkip(reg: Registry, root: nat, order: seq<nat>, stack: seq<nat>)
    requires StackMatches(reg, root, order, stack) && stack != []
    requires !Known(reg, stack[|stack| - 1]) || stack[|stack| - 1] in order
    ensures StackMatches(reg, root, order, stack[..|stack| - 1])
  {
    hide Known, Outstanding;
  }

  lemma StackVisit(reg: Registry, root: nat, order: seq<nat>, stack: seq<nat>)
    requires StackMatches(reg, root, order, stack) && stack != [] && DepthFirst(reg, root, order)
    requires Known(reg, stack[|stack| - 1]) && stack[|stack| - 1] !in order
    ensures var id := stack[|stack| - 1];
      var stack' := stack[..|stack| - 1] + Pending(reg, order + [id], DepsOf(reg, id));
      StackMatches(reg, root, order + [id], stack') && DepthFirst(reg, root, order + [id])
  {
    hide Known, DepsOf;
    var id, rest := stack[|stack| - 1], stack[..|stack| - 1];
    var order', deps := order + [id], DepsOf(reg, id);
    assert Pending(reg, order, stack) == Pending(reg, order, rest) + [id];
    OrderGrows(reg, root, order, id);
    hide Pending, Outstanding;
    OutstandingMore(reg, root, order, id, |order|);
    PendingConcat(reg, order', Pending(reg, order, rest), [id]);
    PendingOne(reg, order', id);
    PendingMore(reg, order, id, rest);
    PendingConcat(reg, order', rest, Pending(reg, order', deps));
    PendingTwice(reg, order', deps);
    OutstandingLast(reg, root, order, id);
  }

  lemma OutstandingLast(reg: Registry, root: nat, order: seq<nat>, id: nat)
    ensures Outstanding(reg, root, order + [id], |order| + 1)
      == Outstanding(reg, root, order + [id], |order|) + Pending(reg, order + [id], DepsOf(reg, id))
  {
    hide Pending, DepsOf;
  }

  lemma OrderGrows(reg: Registry, root: nat, order: seq<nat>, id: nat)
    requires DepthFirst(reg, root, order) && NextIs(reg, root, order, id)
    ensures DepthFirst(reg, root, order + [id])
  {
    hide NextIs;
    var all := order + [id];
    forall i: nat | i < |all|
      ensures NextIs(reg, root, all[..i], all[i])
    {
      if i < |order| {
        assert all[..i] == order[..i];
      } else {
        assert all[..i] == order;
      }
    }
  }

  /** A complete depth-first order is unique. */
  lemma {:induction false} DepthFirstPrefix(reg: Registry, root: nat, p: seq<nat>, q: seq<nat>, k: nat)
    requires DepthFirst(reg, root, p) && DepthFirst(reg, root, q) && k <= |p| && k <= |q|
    ensures p[..k] == q[..k]
  {
    hide Outstanding;
    if k > 0 {
      DepthFirstPrefix(reg, root, p, q, k - 1);
      assert NextIs(reg, root, p[..k - 1], p[k - 1]) && NextIs(reg, root, q[..k - 1], q[k - 1]);
      assert p[..k] == p[..k - 1] + [p[k - 1]] && q[..k] == q[..k - 1] + [q[k - 1]];
    }
  }

  lemma DepthFirstUnique(reg: Registry, root: nat, p: seq<nat>, q: seq<nat>)
    requires DepthFirst(reg, root, p) && Outstanding(reg, root, p, |p|) == []
    requires DepthFirst(reg, root, q) && Outstanding(reg, root, q, |q|) == []
    ensures p == q
  {
    hide Outstanding;
    CompleteIsLonger(reg, root, p, q);
    CompleteIsLonger(reg, root, q, p);
    DepthFirstPrefix(reg, root, p, q, |p|);
    assert p[..|p|] == p && q[..|q|] == q;
  }

  lemma CompleteIsLonger(reg: Registry, root: nat, p: seq<nat>, q: seq<nat>)
    requires DepthFirst(reg, root, p) && Outstanding(reg, root, p, |p|) == [] && DepthFirst(reg, root, q)
    ensures |q| <= |p|
  {
    hide Outstanding;
    assert p[..|p|] == p;
    if |p| < |q| {
      assert NextIs(reg, root, q[..|p|], q[|p|]);
      DepthFirstPrefix(reg, root, p, q, |p|);
    }
  }

  /** The last pending id of a list and its place in it. */
  lemma {:induction false} LastPending(reg: Registry, seen: seq<nat>, q: seq<nat>) returns (j: nat)
    requires Pending(reg, seen, q) != []
    ensures var p := Pending(reg, seen, q); j < |q| && q[j] == p[|p| - 1]
    ensures forall k :: j < k < |q| ==> !Known(reg, q[k]) || q[k] in seen
    decreases |q|
  {
    hide Known;
    if Known(reg, q[|q| - 1]) && q[|q| - 1] !in seen {
      j := |q| - 1;
    } else {
      j := LastPending(reg, seen, q[..|q| - 1]);
    }
  }

  /** The ids a domain asks for are all unknown or seen. */
  ghost predicate Satisfied(reg: Registry, seen: seq<nat>, x: nat) {
    forall y :: y in DepsOf(reg, x) ==> !Known(reg, y) || y in seen
  }

  lemma {:induction false} LastAsker(reg: Registry, root: nat, seen: seq<nat>, n: nat) returns (h: nat, j: nat)
    requires n <= |seen| && root in seen && Outstanding(reg, root, seen, n) != []
    ensures h < n && j < |DepsOf(reg, seen[h])|
    ensures var asked := Outstanding(reg, root, seen, n); DepsOf(reg, seen[h])[j] == asked[|asked| - 1]
    ensures forall k :: j < k < |DepsOf(reg, seen[h])| ==>
      !Known(reg, DepsOf(reg, seen[h])[k]) || DepsOf(reg, seen[h])[k] in seen
    ensures forall i :: h < i < n ==> Satisfied(reg, seen, seen[i])
  {
    hide Known, DepsOf, Pending;
    PendingOne(reg, seen, root);
    var deps := DepsOf(reg, seen[n - 1]);
    if Pending(reg, seen, deps) != [] {
      h := n - 1;
      j := LastPending(reg, seen, deps);
    } else {
      assert Outstanding(reg, root, seen, n) == Outstanding(reg, root, seen, n - 1);
      h, j := LastAsker(reg, root, seen, n - 1);
      NothingPending(reg, seen, seen[n - 1]);
    }
  }

  lemma NothingPending(reg: Registry, seen: seq<nat>, x: nat)
    requires Pending(reg, seen, DepsOf(reg, x)) == []
    ensures Satisfied(reg, seen, x)
  {
    hide Known, Pending, DepsOf;
    forall y | y in DepsOf(reg, x)
      ensures !Known(reg, y) || y in seen
    {
      PendingHolds(reg, seen, DepsOf(reg, x), y);
    }
  }

  /**
    The walk goes on from the latest visited domain with a registered, unvisited dependency to the last listed one of
    these dependencies.
  */
  lemma NextDomain(reg: Registry, root: nat, order: seq<nat>, i: nat) returns (h: nat, j: nat)
    requires DepthFirst(reg, root, order) && 0 < i < |order|
    ensures order[0] == root && h < i && j < |DepsOf(reg, order[h])| && DepsOf(reg, order[h])[j] == order[i]
    ensures forall k :: j < k < |DepsOf(reg, order[h])| ==>
      !Known(reg, DepsOf(reg, order[h])[k]) || DepsOf(reg, order[h])[k] in order[..i]
    ensures forall g :: h < g < i ==> Satisfied(reg, order[..i], order[g])
  {
    hide Known, DepsOf, Outstanding, Satisfied;
    FirstIsRoot(reg, root, order);
    var seen := order[..i];
    assert NextIs(reg, root, seen, order[i]);
    assert seen[0] == root;
    h, j := LastAsker(reg, root, seen, i);
    assert forall g :: 0 <= g < i ==> seen[g] == order[g];
  }

  lemma FirstIsRoot(reg: Registry, root: nat, order: seq<nat>)
    requires DepthFirst(reg, root, order) && order != []
    ensures order[0] == root
  {
    hide Known;
    assert NextIs(reg, root, order[..0], order[0]);
    assert order[..0] == [];
    PendingOne(reg, [], root);
  }

  /** The position of x in the registry has a flag; the kernel panics on the flag of a position that has none. */
  predicate HasFlag(reg: Registry, x: nat) {
    FirstIndex(Ids(reg), x) < VISITED_SLOTS
  }

  /** Every registered id has a flag. */
  ghost predicate FlagsFit(reg: Registry) {
    forall x :: Known(reg, x) ==> HasFlag(reg, x)
  }

  /** With unique ids that means at most 64 registered domains. */
  lemma FlagsFitIff(reg: Registry)
    ensures |reg| <= 64 ==> FlagsFit(reg)
    ensures NoRepeats(Ids(reg)) && FlagsFit(reg) ==> |reg| <= 64
  {
    if NoRepeats(Ids(reg)) && |reg| > VISITED_SLOTS {
      FirstIndexUnique(Ids(reg), reg[VISITED_SLOTS].id, VISITED_SLOTS);
      assert Known(reg, reg[VISITED_SLOTS].id);
    }
  }

  /** The flags say which registered domains are in `order`. */
  ghost predicate FlagsMatch(reg: Registry, visited: seq<bool>, order: seq<nat>) {
    && |visited| == VISITED_SLOTS
    && forall x :: Known(reg, x) && HasFlag(reg, x) ==> (visited[FirstIndex(Ids(reg), x)] <==> x in order)
  }

  lemma FlagsMark(reg: Registry, visited: seq<bool>, order: seq<nat>, id: nat)
    requires FlagsMatch(reg, visited, order) && Known(reg, id) && HasFlag(reg, id)
    ensures FlagsMatch(reg, visited[FirstIndex(Ids(reg), id) := true], order + [id])
  {
  }

  /** all_ids.iter().position(..) */
  method FindPosition(ids: seq<nat>, x: nat) returns (k: nat)
    ensures k == FirstIndex(ids, x)
  {
    k := 0;
    while k < |ids| && ids[k] != x
      invariant 0 <= k <= |ids| && FirstIndex(ids, x) == k + FirstIndex(ids[k..], x)
    {
      assert ids[k..][1..] == ids[k + 1..];
      k := k + 1;
    }
  }

  /** The inner loop: push the registered, unvisited dependencies. */
  method PushDeps(reg: Registry, visited: seq<bool>, ghost order: seq<nat>, stack: seq<nat>, deps: seq<nat>)
    returns (stack': seq<nat>, panicked: bool)
    requires FlagsMatch(reg, visited, order)
    ensures panicked ==> !FlagsFit(reg)
    ensures !panicked ==> stack' == stack + Pending(reg, order, deps)
  {
    hide FlagsMatch;
    stack' := stack;
    var k := 0;
    while k < |deps|
      invariant 0 <= k <= |deps|
      invariant stack' == stack + Pending(reg, order, deps[..k])
    {
      var di := FindPosition(Ids(reg), deps[k]);
      if di < |reg| {
        if di >= |visited| {
          NoFlag(reg, visited, order, deps[k]);
          return stack', true;
        }
        FlagOf(reg, visited, order, deps[k]);
        if !visited[di] {
          stack' := stack' + [deps[k]];
        }
      }
      assert deps[..k + 1][..k] == deps[..k];
      k := k + 1;
    }
    assert deps[..|deps|] == deps;
    panicked := false;
  }

  lemma PushedFacts(reg: Registry, order: seq<nat>, stack: seq<nat>, deps: seq<nat>)
    ensures var stack' := stack + Pending(reg, order, deps);
      && (forall x :: x in stack ==> x in stack')
      && (forall x :: x in stack' ==> x in stack || (x in deps && Known(reg, x)))
      && (forall y :: y in deps && Known(reg, y) ==> y in order || y in stack')
  {
    hide Known, Pending;
    forall x: nat
      ensures x in Pending(reg, order, deps) <==> x in deps && Known(reg, x) && x !in order
    {
      PendingHolds(reg, order, deps, x);
    }
  }

  lemma FlagOf(reg: Registry, visited: seq<bool>, order: seq<nat>, x: nat)
    requires FlagsMatch(reg, visited, order) && Known(reg, x) && FirstIndex(Ids(reg), x) < |visited|
    ensures HasFlag(reg, x) && (visited[FirstIndex(Ids(reg), x)] <==> x in order)
  {
  }

  lemma NoFlag(reg: Registry, visited: seq<bool>, order: seq<nat>, x: nat)
    requires FlagsMatch(reg, visited, order) && Known(reg, x) && FirstIndex(Ids(reg), x) >= |visited|
    ensures !HasFlag(reg, x) && !FlagsFit(reg)
  {
  }

  /** The order never outgrows the registry, which is why the walk ends on cyclic graphs too. */
  lemma OrderFits(reg: Registry, order: seq<nat>)
    requires NoRepeats(order) && forall x :: x in order ==> Known(reg, x)
    ensures |order| <= |reg|
  {
    var ids := set i | 0 <= i < |reg| :: reg[i].id;
    forall i | 0 <= i < |order|
      ensures order[i] in ids
    {
      assert Known(reg, order[i]) && reg[FirstIndex(Ids(reg), order[i])].id == order[i];
    }
    Pigeonhole(order, ids);
    IdSetFits(reg, |reg|);
  }

  lemma {:induction false} IdSetFits(reg: Registry, n: nat)
    requires n <= |reg|
    ensures |set i | 0 <= i < n :: reg[i].id| <= n
  {
    if n > 0 {
      IdSetFits(reg, n - 1);
      var front := set i | 0 <= i < n - 1 :: reg[i].id;
      assert (set i | 0 <= i < n :: reg[i].id) == front + {reg[n - 1].id};
    }
  }

  /** The first loop of compute_recovery_order. */
  method Walk(reg: Registry, root: nat) returns (order: seq<nat>, visited: seq<bool>, panicked: bool)
    ensures panicked ==> !FlagsFit(reg)
    ensures !panicked ==> Walking(DepGraph(reg), root, order, []) && FlagsMatch(reg, visited, order)
    ensures !panicked ==> DepthFirst(reg, root, order) && Outstanding(reg, root, order, |order|) == []
  {
    hide Walking, FlagsMatch, FlagsFit, DepGraph, Edge, NoRepeats, DepthFirst, StackMatches, Outstanding, Pending;
    ghost var g := DepGraph(reg);
    order, panicked := [], false;
    visited := seq(VISITED_SLOTS, _ => false);
    var stack := [root];
    WalkStart(g, root);
    StackStart(reg, root);
    FlagsStart(reg, visited);
    while stack != []
      invariant Walking(g, root, order, stack) && FlagsMatch(reg, visited, order) && !panicked
      invariant StackMatches(reg, root, order, stack) && DepthFirst(reg, root, order)
      invariant |order| <= |reg|
      decreases |reg| - |order|, |stack|
    {
      var id := stack[|stack| - 1];
      var rest := stack[..|stack| - 1];
      var i := FindPosition(Ids(reg), id);
      if i < |reg| {
        if i >= |visited| {
          NoFlag(reg, visited, order, id);
          return order, visited, true;
        }
        FlagOf(reg, visited, order, id);
      }
      if i == |reg| || visited[i] {
        WalkSkip(g, root, order, stack);
        StackSkip(reg, root, order, stack);
        stack := rest;
      } else {
        FlagsMark(reg, visited, order, id);
        visited := visited[i := true];
        var stack', stop := PushDeps(reg, visited, order + [id], rest, reg[i].deps);
        if stop {
          return order, visited, true;
        }
        PushedFacts(reg, order + [id], rest, reg[i].deps);
        WalkVisit(g, root, order, stack, stack');
        StackVisit(reg, root, order, stack);
        order, stack := order + [id], stack';
        WalkFits(reg, root, order, stack);
      }
    }
    StackEnd(reg, root, order);
  }

  lemma StackEnd(reg: Registry, root: nat, order: seq<nat>)
    requires StackMatches(reg, root, order, [])
    ensures Outstanding(reg, root, order, |order|) == []
  {
  }

  lemma FlagsStart(reg: Registry, visited: seq<bool>)
    requires |visited| == VISITED_SLOTS && forall i :: 0 <= i < |visited| ==> !visited[i]
    ensures FlagsMatch(reg, visited, [])
  {
  }

  lemma WalkFits(reg: Registry, root: nat, order: seq<nat>, stack: seq<nat>)
    requires Walking(DepGraph(reg), root, order, stack)
    ensures |order| <= |reg|
  {
    hide Edge, Reachable;
    OrderFits(reg, order);
  }

  // ----- direct dependents

  /** x is registered and lists the root among its dependencies. */
  predicate DependsOnRoot(reg: Registry, root: nat, x: nat) {
    x != root && Known(reg, x) && root in DepsOf(reg, x)
  }

  /** The ids among the first n registered ones that depend on the root and were not reached by the walk. */
  function Dependents(reg: Registry, root: nat, reached: seq<nat>, n: nat): (r: seq<nat>)
    requires n <= |reg|
  {
    if n == 0 then []
    else
      var front, id := Dependents(reg, root, reached, n - 1), reg[n - 1].id;
      if id !in reached && DependsOnRoot(reg, root, id) then front + [id] else front
  }

  lemma {:induction false} DependentsHold(reg: Registry, root: nat, reached: seq<nat>, n: nat, x: nat)
    requires n <= |reg|
    ensures x in Dependents(reg, root, reached, n) <==>
      x !in reached && DependsOnRoot(reg, root, x) && exists i :: 0 <= i < n && reg[i].id == x
  {
    hide DependsOnRoot;
    if n > 0 {
      DependentsHold(reg, root, reached, n - 1, x);
    }
  }

  lemma {:induction false} DependentsDistinct(reg: Registry, root: nat, reached: seq<nat>, n: nat)
    requires n <= |reg| && NoRepeats(Ids(reg))
    ensures NoRepeats(Dependents(reg, root, reached, n))
  {
    hide DependsOnRoot;
    if n > 0 {
      DependentsDistinct(reg, root, reached, n - 1);
      DependentsHold(reg, root, reached, n - 1, reg[n - 1].id);
    }
  }

  /** The dependents come in the order of their registration. */
  lemma {:induction false} DependentsInOrder(reg: Registry, root: nat, reached: seq<nat>, n: nat) returns (at: seq<nat>)
    requires n <= |reg|
    ensures var r := Dependents(reg, root, reached, n);
      && |at| == |r|
      && (forall k :: 0 <= k < |at| ==> at[k] < n && reg[at[k]].id == r[k])
      && (forall k, m :: 0 <= k < m < |at| ==> at[k] < at[m])
  {
    hide DependsOnRoot;
    if n == 0 {
      at := [];
    } else {
      at := DependentsInOrder(reg, root, reached, n - 1);
      if reg[n - 1].id !in reached && DependsOnRoot(reg, root, reg[n - 1].id) {
        at := at + [n - 1];
      }
    }
  }

  /** has_dependency */
  method HasDependency(reg: Registry, sub: nat, on: nat) returns (b: bool)
    ensures b <==> on in DepsOf(reg, sub)
  {
    var k := FindPosition(Ids(reg), sub);
    b := k < |reg| && on in reg[k].deps;
  }

  /** The second loop of compute_recovery_order, which looks at every id's flag. */
  method AppendDependents(reg: Registry, root: nat, visited: seq<bool>, reached: seq<nat>)
    returns (order: seq<nat>, panicked: bool)
    requires FlagsMatch(reg, visited, reached)
    ensures panicked <==> !FlagsFit(reg)
    ensures !panicked ==> order == reached + Dependents(reg, root, reached, |reg|)
  {
    hide FlagsMatch, HasFlag, FlagsFit, Dependents, DepsOf;
    order := reached;
    var k := 0;
    DependentsNone(reg, root, reached);
    while k < |reg|
      invariant 0 <= k <= |reg| && order == reached + Dependents(reg, root, reached, k)
      invariant forall j :: 0 <= j < k ==> HasFlag(reg, reg[j].id)
    {
      var id := reg[k].id;
      var i := FindPosition(Ids(reg), id);
      assert Ids(reg)[k] == id;
      if i >= |visited| {
        NoFlag(reg, visited, reached, id);
        return order, true;
      }
      FlagOf(reg, visited, reached, id);
      DependentsStep(reg, root, reached, k);
      if !visited[i] && id != root {
        var dependent := HasDependency(reg, id, root);
        if dependent {
          order := order + [id];
        }
      }
      k := k + 1;
    }
    panicked := false;
    AllFlagged(reg);
  }

  lemma DependentsNone(reg: Registry, root: nat, reached: seq<nat>)
    ensures reached + Dependents(reg, root, reached, 0) == reached
  {
  }

  lemma DependentsStep(reg: Registry, root: nat, reached: seq<nat>, k: nat)
    requires k < |reg|
    ensures var id := reg[k].id;
      reached + Dependents(reg, root, reached, k + 1) ==
      if id !in reached && id != root && root in DepsOf(reg, id) then reached + Dependents(reg, root, reached, k) + [id]
      else reached + Dependents(reg, root, reached, k)
  {
  }

  lemma AllFlagged(reg: Registry)
    requires forall j :: 0 <= j < |reg| ==> HasFlag(reg, reg[j].id)
    ensures FlagsFit(reg)
  {
    hide HasFlag;
    forall x | Known(reg, x)
      ensures HasFlag(reg, x)
    {
      assert reg[FirstIndex(Ids(reg), x)].id == x;
    }
  }

  /**
    compute_recovery_order: the root if it is registered, then its transitive registered dependencies, then the
    direct dependents the walk did not reach, in registration order.  It panics exactly when some registered id has
    no flag.
  */
  method ComputeRecoveryOrder(reg: Registry, root: nat)
    returns (order: seq<nat>, panicked: bool, ghost reached: seq<nat>)
    ensures panicked <==> !FlagsFit(reg)
    ensures !panicked ==>
      && order == reached + Dependents(reg, root, reached, |reg|)
      && DepthFirst(reg, root, reached) && Outstanding(reg, root, reached, |reached|) == []
      && (forall x :: x in reached <==> Reachable(DepGraph(reg), root, x))
      && (forall x :: x in order <==> Reachable(DepGraph(reg), root, x) || DependsOnRoot(reg, root, x))
      && (Known(reg, root) ==> order != [] && order[0] == root)
      && NoRepeats(reached) && (NoRepeats(Ids(reg)) ==> NoRepeats(order))
      && (forall x :: x in order ==> Known(reg, x))
  {
    hide DepGraph, Edge, Reachable, FlagsMatch, FlagsFit, DependsOnRoot, Dependents, NoRepeats, Walking, DepthFirst,
      Outstanding;
    var first, visited, stop := Walk(reg, root);
    reached := first;
    if stop {
      return [], true, first;
    }
    order, panicked := AppendDependents(reg, root, visited, first);
    OrderContents(reg, root, reached);
    OrderDistinct(reg, root, reached);
    OrderHead(reg, root, reached);
  }

  lemma OrderContents(reg: Registry, root: nat, reached: seq<nat>)
    requires Walking(DepGraph(reg), root, reached, [])
    ensures forall x :: x in reached <==> Reachable(DepGraph(reg), root, x)
    ensures forall x :: x in reached + Dependents(reg, root, reached, |reg|) <==>
      Reachable(DepGraph(reg), root, x) || DependsOnRoot(reg, root, x)
    ensures forall x :: x in reached + Dependents(reg, root, reached, |reg|) ==> Known(reg, x)
  {
    hide Edge, Reachable, Dependents, DepsOf, NoRepeats;
    forall x: nat
      ensures x in reached <==> Reachable(DepGraph(reg), root, x)
      ensures x in Dependents(reg, root, reached, |reg|) <==> x !in reached && DependsOnRoot(reg, root, x)
    {
      WalkEnd(DepGraph(reg), root, reached, x);
      DependentsHold(reg, root, reached, |reg|, x);
      if DependsOnRoot(reg, root, x) {
        assert reg[FirstIndex(Ids(reg), x)].id == x;
      }
    }
  }

  lemma OrderDistinct(reg: Registry, root: nat, reached: seq<nat>)
    requires Walking(DepGraph(reg), root, reached, [])
    ensures NoRepeats(reached)
    ensures NoRepeats(Ids(reg)) ==> NoRepeats(reached + Dependents(reg, root, reached, |reg|))
  {
    hide Edge, Reachable, DependsOnRoot, Dependents;
    if NoRepeats(Ids(reg)) {
      DependentsDistinct(reg, root, reached, |reg|);
      forall x | x in reached
        ensures x !in Dependents(reg, root, reached, |reg|)
      {
        DependentsHold(reg, root, reached, |reg|, x);
      }
      NoRepeatsConcat(reached, Dependents(reg, root, reached, |reg|));
    }
  }

  lemma OrderHead(reg: Registry, root: nat, reached: seq<nat>)
    requires Walking(DepGraph(reg), root, reached, [])
    ensures Known(reg, root) ==> reached != [] && reached[0] == root
  {
    hide Edge, Reachable, DepsOf;
  }

  /** cascade_recover: restores the domains of the order one after the other and counts them. */
  method CascadeRecover(reg: Registry, root: nat)
    returns (recovered: nat, restored: seq<nat>, panicked: bool, ghost reached: seq<nat>)
    ensures recovered == |restored|
    ensures panicked <==> !FlagsFit(reg)
    ensures panicked ==> restored == []
    ensures !panicked ==>
      && restored == reached + Dependents(reg, root, reached, |reg|)
      && DepthFirst(reg, root, reached) && Outstanding(reg, root, reached, |reached|) == []
      && (forall x :: x in restored <==> Reachable(DepGraph(reg), root, x) || DependsOnRoot(reg, root, x))
      && (NoRepeats(Ids(reg)) ==> NoRepeats(restored))
  {
    hide DepGraph, Reachable, DependsOnRoot, Dependents, NoRepeats, FlagsFit, DepthFirst, Outstanding;
    var order, stop;
    order, stop, reached := ComputeRecoveryOrder(reg, root);
    restored, recovered, panicked := [], 0, stop;
    if stop {
      return;
    }
    var k := 0;
    while k < |order|
      invariant 0 <= k <= |order| && recovered == k && restored == order[..k]
    {
      var i := FindPosition(Ids(reg), order[k]);
      assert order[k] in order;
      if i < |reg| {
        restored := restored + [order[k]];
        recovered := recovered + 1;
      }
      k := k + 1;
    }
    assert order[..|order|] == order;
  }

  // ----- dependencies first?

  /** The documented order: every dependency comes before the domains that need it. */
  ghost predicate DependenciesFirst(reg: Registry, order: seq<nat>) {
    forall i, j :: 0 <= i < j < |order| ==> order[j] !in DepsOf(reg, order[i])
  }

  /** The root has no registered dependency but possibly itself. */
  predicate Independent(reg: Registry, root: nat) {
    forall d :: d in DepsOf(reg, root) && Known(reg, d) ==> d == root
  }

  /** The root goes first, so its own dependencies always come too late. */
  lemma RootBeforeItsDependencies(reg: Registry, root: nat, order: seq<nat>, d: nat)
    requires order != [] && order[0] == root && d in order && d != root && d in DepsOf(reg, root)
    ensures !DependenciesFirst(reg, order)
  {
    var j :| 0 <= j < |order| && order[j] == d;
    assert order[j] in DepsOf(reg, order[0]);
  }

  /** Without other dependencies the walk reaches the root only. */
  lemma IndependentReach(reg: Registry, root: nat, reached: seq<nat>)
    requires Known(reg, root) && Independent(reg, root) && NoRepeats(reached)
    requires forall x :: x in reached <==> Reachable(DepGraph(reg), root, x)
    ensures reached == [root]
  {
    hide Reachable;
    var g := DepGraph(reg);
    RootReachable(g, root);
    assert Closed(g, root, [root]);
    forall x | x in reached
      ensures x == root
    {
      ClosedHoldsReachable(g, root, [root], x);
    }
    assert root in reached;
    AllEqualIsSingle(reached, root);
  }

  lemma AllEqualIsSingle(q: seq<nat>, x: nat)
    requires NoRepeats(q) && q != [] && forall y :: y in q ==> y == x
    ensures q == [x]
  {
    assert q[0] in q && q[|q| - 1] in q;
  }

  /**
    For a registered root the computed order puts dependencies first exactly when the root has no other dependency
    and its direct dependents were registered in dependency order.
  */
  lemma DependenciesFirstIff(reg: Registry, root: nat, reached: seq<nat>, order: seq<nat>)
    requires Known(reg, root) && NoRepeats(reached) && order == reached + Dependents(reg, root, reached, |reg|)
    requires forall x :: x in reached <==> Reachable(DepGraph(reg), root, x)
    requires reached != [] && reached[0] == root
    ensures DependenciesFirst(reg, order) <==>
      Independent(reg, root) && DependenciesFirst(reg, Dependents(reg, root, [root], |reg|))
  {
    hide Reachable, DepGraph, DepsOf, Dependents, NoRepeats, Known, DependenciesFirst;
    if Independent(reg, root) {
      IndependentReach(reg, root, reached);
      assert order == [root] + Dependents(reg, root, [root], |reg|);
      DependentsAfterRoot(reg, root, Dependents(reg, root, [root], |reg|));
    } else {
      var d :| d in DepsOf(reg, root) && Known(reg, d) && d != root;
      DependencyReached(reg, root, d);
      assert d in reached && order[0] == root;
      RootBeforeItsDependencies(reg, root, order, d);
    }
  }

  /** Two domains of which the first needs the second: recovering the first is out of order. */
  lemma OutOfOrderExample(reached: seq<nat>, order: seq<nat>)
    requires var reg := [Registered(1, [2]), Registered(2, [])];
      && NoRepeats(reached) && order == reached + Dependents(reg, 1, reached, |reg|)
      && (forall x :: x in reached <==> Reachable(DepGraph(reg), 1, x))
      && reached != [] && reached[0] == 1
    ensures !DependenciesFirst([Registered(1, [2]), Registered(2, [])], order)
  {
    hide Reachable, DepGraph, Dependents, DependenciesFirst;
    var reg := [Registered(1, [2]), Registered(2, [])];
    assert Ids(reg) == [1, 2];
    assert FirstIndex([1, 2], 1) == 0 && FirstIndex([1, 2][1..], 2) == 0;
    assert 2 in DepsOf(reg, 1) && Known(reg, 2);
    DependenciesFirstIff(reg, 1, reached, order);
  }

  lemma DependencyReached(reg: Registry, root: nat, d: nat)
    requires Known(reg, root) && Known(reg, d) && d in DepsOf(reg, root)
    ensures Reachable(DepGraph(reg), root, d)
  {
    hide Reachable;
    RootReachable(DepGraph(reg), root);
    ExtendReachable(DepGraph(reg), root, root, d);
  }

  lemma DependentsAfterRoot(reg: Registry, root: nat, ds: seq<nat>)
    requires Independent(reg, root) && ds == Dependents(reg, root, [root], |reg|)
    ensures DependenciesFirst(reg, [root] + ds) <==> DependenciesFirst(reg, ds)
  {
    hide DepsOf, Dependents;
    forall x | x in ds
      ensures x !in DepsOf(reg, root)
    {
      DependentsHold(reg, root, [root], |reg|, x);
    }
    var all := [root] + ds;
    assert forall i :: 0 < i < |all| ==> all[i] == ds[i - 1] && ds[i - 1] in ds;
    assert forall i :: 0 <= i < |ds| ==> all[i + 1] == ds[i];
    if DependenciesFirst(reg, all) {
      forall i, j | 0 <= i < j < |ds|
        ensures ds[j] !in DepsOf(reg, ds[i])
      {
        assert all[j + 1] !in DepsOf(reg, all[i + 1]);
      }
    }
  }

  // ----- registration

  /** A call of recovery_domain_register: a preferred id, or 0 for an automatic one. */
  datatype Request = Request(preferId: nat, deps: seq<nat>)

  const FIRST_AUTOMATIC_ID: nat := 16

  datatype RegistryState = RegistryState(registered: Registry, nextId: nat)

  function AfterRequest(s: RegistryState, r: Request): RegistryState {
    if r.preferId == 0 then
      RegistryState(s.registered + [Registered(s.nextId, r.deps)], s.nextId + 1)
    else if Known(s.registered, r.preferId) then s
    else s.(registered := s.registered + [Registered(r.preferId, r.deps)])
  }

  function AfterRequests(rs: seq<Request>): RegistryState {
    if rs == [] then RegistryState([], FIRST_AUTOMATIC_ID)
    else AfterRequest(AfterRequests(rs[..|rs| - 1]), rs[|rs| - 1])
  }

  /** How many requests leave the id to the registry. */
  function Automatic(rs: seq<Request>): nat {
    if rs == [] then 0 else Automatic(rs[..|rs| - 1]) + if rs[|rs| - 1].preferId == 0 then 1 else 0
  }

  /** The id was preferred by a request. */
  ghost predicate Preferred(rs: seq<Request>, id: nat) {
    id != 0 && exists i :: 0 <= i < |rs| && rs[i].preferId == id
  }

  lemma PreferredSnoc(rs: seq<Request>, r: Request, id: nat)
    ensures Preferred(rs + [r], id) <==> Preferred(rs, id) || (id != 0 && r.preferId == id)
  {
    var all := rs + [r];
    if Preferred(rs, id) {
      var i :| 0 <= i < |rs| && rs[i].preferId == id;
      assert all[i].preferId == id;
    }
    if id != 0 && r.preferId == id {
      assert all[|rs|].preferId == id;
    }
  }

  lemma KnownSnoc(reg: Registry, r: Registered, x: nat)
    ensures Known(reg + [r], x) <==> Known(reg, x) || r.id == x
  {
    var ids, all := Ids(reg), Ids(reg + [r]);
    assert all == ids + [r.id];
    if FirstIndex(ids, x) < |ids| {
      assert all[FirstIndex(ids, x)] == x;
    } else if r.id == x {
      assert all[|ids|] == x;
    }
  }

  /** After any requests exactly the preferred ids and the automatic ones handed out so far are registered. */
  lemma {:induction false} RegisteredIds(rs: seq<Request>, x: nat)
    ensures AfterRequests(rs).nextId == FIRST_AUTOMATIC_ID + Automatic(rs)
    ensures Known(AfterRequests(rs).registered, x) <==>
      Preferred(rs, x) || FIRST_AUTOMATIC_ID <= x < FIRST_AUTOMATIC_ID + Automatic(rs)
    decreases |rs|
  {
    hide Preferred, Known;
    if rs == [] {
      NothingKnown(x);
    } else {
      var front, r := rs[..|rs| - 1], rs[|rs| - 1];
      assert rs == front + [r];
      RegisteredIds(front, x);
      PreferredSnoc(front, r, x);
      var s := AfterRequests(front);
      KnownSnoc(s.registered, Registered(if r.preferId == 0 then s.nextId else r.preferId, r.deps), x);
    }
  }

  lemma NothingKnown(x: nat)
    ensures !Known([], x) && !Preferred([], x)
  {
  }

  /** Request j gets the automatic id that an earlier request preferred. */
  ghost predicate ClashAt(rs: seq<Request>, j: nat) {
    j < |rs| && rs[j].preferId == 0 && Preferred(rs[..j], FIRST_AUTOMATIC_ID + Automatic(rs[..j]))
  }

  ghost predicate NoClash(rs: seq<Request>) {
    forall j: nat :: j < |rs| ==> !ClashAt(rs, j)
  }

  lemma ClashAtPrefix(rs: seq<Request>, r: Request, j: nat)
    requires j < |rs|
    ensures ClashAt(rs + [r], j) <==> ClashAt(rs, j)
  {
    hide Preferred, Automatic;
    assert (rs + [r])[..j] == rs[..j];
  }

  lemma ClashAtEnd(rs: seq<Request>, r: Request)
    ensures ClashAt(rs + [r], |rs|) <==> r.preferId == 0 && Preferred(rs, FIRST_AUTOMATIC_ID + Automatic(rs))
  {
    hide Preferred, Automatic;
    assert (rs + [r])[..|rs|] == rs;
  }

  lemma NoClashSnoc(rs: seq<Request>, r: Request)
    ensures NoClash(rs + [r]) <==>
      NoClash(rs) && (r.preferId == 0 ==> !Preferred(rs, FIRST_AUTOMATIC_ID + Automatic(rs)))
  {
    hide ClashAt, Preferred, Automatic;
    var all := rs + [r];
    ClashAtEnd(rs, r);
    forall j: nat | j < |rs|
      ensures ClashAt(all, j) <==> ClashAt(rs, j)
    {
      ClashAtPrefix(rs, r, j);
    }
  }

  /** Over every run of requests the registered ids are distinct exactly when there is no such clash. */
  lemma {:induction false} IdsUniqueIff(rs: seq<Request>)
    ensures NoRepeats(Ids(AfterRequests(rs).registered)) <==> NoClash(rs)
    decreases |rs|
  {
    hide Preferred, Known, NoRepeats, NoClash, Ids;
    if rs == [] {
      NoRequests();
    } else {
      var front, r := rs[..|rs| - 1], rs[|rs| - 1];
      assert rs == front + [r];
      IdsUniqueIff(front);
      NoClashSnoc(front, r);
      var s := AfterRequests(front);
      RegisteredIds(front, s.nextId);
      IdsAppend(s.registered, Registered(if r.preferId == 0 then s.nextId else r.preferId, r.deps));
    }
  }

  lemma NoRequests()
    ensures NoRepeats(Ids([])) && NoClash([])
  {
  }

  lemma IdsAppend(reg: Registry, r: Registered)
    ensures NoRepeats(Ids(reg + [r])) <==> NoRepeats(Ids(reg)) && !Known(reg, r.id)
  {
    var ids, all := Ids(reg), Ids(reg + [r]);
    assert all == ids + [r.id];
    if Known(reg, r.id) {
      assert all[FirstIndex(ids, r.id)] == all[|ids|];
    }
    if NoRepeats(all) {
      forall i, j | 0 <= i < j < |ids|
        ensures ids[i] != ids[j]
      {
        assert all[i] != all[j];
      }
    }
  }

  /** Id 16 preferred by one domain and handed out to the next. */
  lemma ClashExample()
    ensures !NoRepeats(Ids(AfterRequests([Request(16, []), Request(0, [])]).registered))
  {
    hide NoRepeats, AfterRequests;
    var rs := [Request(16, []), Request(0, [])];
    var front := rs[..1];
    assert front[0].preferId == 16 && front[..0] == [];
    assert Automatic(front) == 0 && Preferred(front, 16);
    assert ClashAt(rs, 1);
    IdsUniqueIff(rs);
  }

  class RecoveryRegistry {
    var registered: Registry
    var nextId: nat

    ghost function View(): RegistryState
      reads this
    {
      RegistryState(registered, nextId)
    }

    constructor ()
      ensures View() == AfterRequests([])
    {
      registered := [];
      nextId := FIRST_AUTOMATIC_ID;
    }

    /**
      recovery_domain_register: a preferred id is registered once; without one the next automatic id is taken
      unchecked, so ids stay distinct exactly when that id was not already preferred by someone.
    */
    method Register(preferId: nat, deps: seq<nat>) returns (id: nat)
      modifies this
      ensures id == if preferId != 0 then preferId else old(nextId)
      ensures View() == AfterRequest(old(View()), Request(preferId, deps))
      ensures registered == if preferId != 0 && Known(old(registered), preferId) then old(registered)
                            else old(registered) + [Registered(id, deps)]
      ensures NoRepeats(Ids(old(registered))) ==>
        (NoRepeats(Ids(registered)) <==> preferId != 0 || !Known(old(registered), old(nextId)))
    {
      hide FirstIndex, NoRepeats, Ids, Known;
      if preferId != 0 {
        var k := FindPosition(Ids(registered), preferId);
        KnownMeans(registered, preferId);
        if k < |registered| {
          return preferId;
        }
        id := preferId;
      } else {
        id := nextId;
        nextId := nextId + 1;
      }
      IdsAppend(registered, Registered(id, deps));
      registered := registered + [Registered(id, deps)];
    }

    lemma KnownMeans(reg: Registry, x: nat)
      ensures Known(reg, x) <==> FirstIndex(Ids(reg), x) < |reg|
    {
    }
  }
}
