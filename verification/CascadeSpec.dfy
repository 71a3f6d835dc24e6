/** The rollback cascade over a set of domains: which domains it visits, in what order, with what effect. */
module CascadeSpec {
  import opened Results
  import opened UndoSpec
  import opened UndoMemory
  import opened DomainSpec
  import opened Graphs

  const MAX_RECOVERY_DOMAINS: nat := 32

  /** The live domains by id. */
  type System = map<nat, Dom>

  ghost predicate Rings(s: System) {
    forall id :: id in s ==> |s[id].barriers.ring| == MAX_BARRIER_SNAPSHOTS
  }

  /** Every domain's log points into a memory of this size. */
  ghost predicate AllLoaded(s: System, size: nat) {
    forall id :: id in s ==> Loaded(s[id], size)
  }

  /** The cascade goes on from x to the domains that depend on it when x is granted a rollback. */
  ghost function Links(s: System, tick: nat, fp: nat): (g: Graph)
    ensures g.Keys == s.Keys
  {
    map x | x in s :: set y | y in s && TryOk(s[x].guard, tick, fp) && Some(y) in s[x].dependedBy
  }

  /** Breadth-first progress: q lists reachable domains once each, and those before h have their successors in q. */
  ghost predicate Explored(g: Graph, root: nat, q: seq<nat>, h: nat) {
    && h <= |q| && NoRepeats(q)
    && (root in g ==> root in q)
    && (forall i :: 0 <= i < |q| ==> q[i] in g && Reachable(g, root, q[i]))
    && (forall i, y :: 0 <= i < h && Edge(g, q[i], y) ==> y in q)
  }

  /** A finished search has found exactly the reachable domains. */
  lemma ExploredAll(g: Graph, root: nat, q: seq<nat>, x: nat)
    requires Explored(g, root, q, |q|)
    ensures x in q <==> Reachable(g, root, x)
  {
    if Reachable(g, root, x) {
      ClosedHoldsReachable(g, root, q, x);
    }
  }

  // ----- the order of the search

  /** The queue q after the first k dependents were looked at: known ids not in it yet are appended in slot order. */
  ghost function Appended(ids: set<nat>, q: seq<nat>, slots: seq<Option<nat>>, k: nat): seq<nat>
    requires k <= |slots|
  {
    if k == 0 then q
    else
      var r := Appended(ids, q, slots, k - 1);
      if slots[k - 1].Some? && slots[k - 1].value in ids && slots[k - 1].value !in r then r + [slots[k - 1].value]
      else r
  }

  /** The queue after h turns: the root, then the dependents of the domains in it that are granted, turn by turn. */
  ghost function Queue(s: System, tick: nat, fp: nat, root: nat, h: nat): (q: seq<nat>)
    ensures forall i :: 0 <= i < |q| ==> q[i] in s
  {
    if h == 0 then if root in s then [root] else []
    else
      var q := Queue(s, tick, fp, root, h - 1);
      if h - 1 < |q| then TurnKnown(s, tick, fp, q, h - 1); Turn(s, tick, fp, q, h - 1) else q
  }

  /** The dependents a visit to x queues: those in its slots if it is granted a rollback. */
  ghost function Asked(s: System, tick: nat, fp: nat, x: nat): seq<Option<nat>>
    requires x in s
  {
    if TryOk(s[x].guard, tick, fp) then s[x].dependedBy else []
  }

  ghost function Turn(s: System, tick: nat, fp: nat, q: seq<nat>, h: nat): seq<nat>
    requires h < |q| && q[h] in s
  {
    Appended(s.Keys, q, Asked(s, tick, fp, q[h]), |Asked(s, tick, fp, q[h])|)
  }

  lemma TurnKnown(s: System, tick: nat, fp: nat, q: seq<nat>, h: nat)
    requires h < |q| && forall i :: 0 <= i < |q| ==> q[i] in s
    ensures var r := Turn(s, tick, fp, q, h);
      forall i :: 0 <= i < |r| ==> r[i] in s
  {
    hide Appended;
    AppendedMembers(s.Keys, q, Asked(s, tick, fp, q[h]), |Asked(s, tick, fp, q[h])|);
  }

  lemma {:induction false} AppendedMembers(ids: set<nat>, q: seq<nat>, slots: seq<Option<nat>>, k: nat)
    requires k <= |slots| && forall i :: 0 <= i < |q| ==> q[i] in ids
    ensures var r := Appended(ids, q, slots, k);
      && q <= r
      && (forall i :: 0 <= i < |r| ==> r[i] in ids)
      && (forall i :: |q| <= i < |r| ==> Some(r[i]) in slots)
  {
    if k > 0 {
      AppendedMembers(ids, q, slots, k - 1);
    }
  }

  lemma {:induction false} AppendedDistinct(ids: set<nat>, q: seq<nat>, slots: seq<Option<nat>>, k: nat)
    requires k <= |slots| && NoRepeats(q)
    ensures NoRepeats(Appended(ids, q, slots, k))
  {
    if k > 0 {
      AppendedDistinct(ids, q, slots, k - 1);
    }
  }

  lemma {:induction false} AppendedCovers(ids: set<nat>, q: seq<nat>, slots: seq<Option<nat>>, k: nat, y: nat)
    requires k <= |slots| && y in ids && Some(y) in slots[..k]
    ensures y in Appended(ids, q, slots, k)
  {
    if Some(y) in slots[..k - 1] {
      AppendedCovers(ids, q, slots, k - 1, y);
    } else {
      assert slots[k - 1] == Some(y);
    }
  }

  lemma {:induction false} AppendedInOrder(ids: set<nat>, q: seq<nat>, slots: seq<Option<nat>>, k: nat)
    returns (at: seq<nat>)
    requires k <= |slots| && forall i :: 0 <= i < |q| ==> q[i] in ids
    ensures var r := Appended(ids, q, slots, k);
      && |r| == |q| + |at|
      && (forall i :: 0 <= i < |at| ==> at[i] < k && FirstSlot(slots, at[i], r[|q| + i]))
      && (forall i, j :: 0 <= i < j < |at| ==> at[i] < at[j])
  {
    hide FirstSlot;
    at := [];
    if k > 0 {
      var r := Appended(ids, q, slots, k - 1);
      at := AppendedInOrder(ids, q, slots, k - 1);
      if Appended(ids, q, slots, k) != r {
        NewInSlot(ids, q, slots, k - 1);
        at := at + [k - 1];
      }
    }
  }

  /** Slot a is the first with this id. */
  ghost predicate FirstSlot(slots: seq<Option<nat>>, a: nat, id: nat) {
    a < |slots| && slots[a] == Some(id) && Some(id) !in slots[..a]
  }

  lemma NewInSlot(ids: set<nat>, q: seq<nat>, slots: seq<Option<nat>>, k: nat)
    requires k < |slots| && Appended(ids, q, slots, k + 1) != Appended(ids, q, slots, k)
    ensures slots[k].Some? && FirstSlot(slots, k, slots[k].value)
  {
    if Some(slots[k].value) in slots[..k] {
      AppendedCovers(ids, q, slots, k, slots[k].value);
    }
  }

  /** The domains a turn appends come in the order of the slots that first name them. */
  lemma TurnInSlotOrder(s: System, tick: nat, fp: nat, q: seq<nat>, h: nat) returns (at: seq<nat>)
    requires h < |q| && forall i :: 0 <= i < |q| ==> q[i] in s
    ensures var q' := Turn(s, tick, fp, q, h);
      && |q'| == |q| + |at|
      && (forall i :: 0 <= i < |at| ==> FirstSlot(s[q[h]].dependedBy, at[i], q'[|q| + i]))
      && (forall i, j :: 0 <= i < j < |at| ==> at[i] < at[j])
  {
    hide Appended, FirstSlot;
    var slots := Asked(s, tick, fp, q[h]);
    at := AppendedInOrder(s.Keys, q, slots, |slots|);
  }

  /** A queue that holds all ids stays as it is. */
  lemma {:induction false} AppendedFull(ids: set<nat>, q: seq<nat>, slots: seq<Option<nat>>, k: nat, n: nat)
    requires k <= n <= |slots| && forall id :: id in ids ==> id in Appended(ids, q, slots, k)
    ensures Appended(ids, q, slots, n) == Appended(ids, q, slots, k)
  {
    if k < n {
      AppendedFull(ids, q, slots, k, n - 1);
    }
  }

  lemma AskedIsEdge(s: System, tick: nat, fp: nat, x: nat, y: nat)
    requires x in s
    ensures y in s && Some(y) in Asked(s, tick, fp, x) <==> Edge(Links(s, tick, fp), x, y)
  {
  }

  /** One turn appends exactly the successors of the domain at the head that are not queued yet. */
  lemma TurnFacts(s: System, tick: nat, fp: nat, q: seq<nat>, h: nat)
    requires h < |q| && NoRepeats(q) && forall i :: 0 <= i < |q| ==> q[i] in s
    ensures var q' := Turn(s, tick, fp, q, h);
      && q <= q' && NoRepeats(q') && (forall i :: 0 <= i < |q'| ==> q'[i] in s)
      && (forall i :: |q| <= i < |q'| ==> Edge(Links(s, tick, fp), q[h], q'[i]))
      && (forall y :: Edge(Links(s, tick, fp), q[h], y) ==> y in q')
  {
    hide Appended, Asked, Links, Edge, NoRepeats;
    var slots, q' := Asked(s, tick, fp, q[h]), Turn(s, tick, fp, q, h);
    AppendedMembers(s.Keys, q, slots, |slots|);
    AppendedDistinct(s.Keys, q, slots, |slots|);
    forall i | |q| <= i < |q'|
      ensures Edge(Links(s, tick, fp), q[h], q'[i])
    {
      AskedIsEdge(s, tick, fp, q[h], q'[i]);
    }
    forall y: nat | Edge(Links(s, tick, fp), q[h], y)
      ensures y in q'
    {
      AskedIsEdge(s, tick, fp, q[h], y);
      assert slots[..|slots|] == slots;
      AppendedCovers(s.Keys, q, slots, |slots|, y);
    }
  }

  lemma {:induction false} QueueDistinct(s: System, tick: nat, fp: nat, root: nat, h: nat)
    ensures NoRepeats(Queue(s, tick, fp, root, h))
  {
    hide Turn;
    if h > 0 {
      var q := Queue(s, tick, fp, root, h - 1);
      QueueDistinct(s, tick, fp, root, h - 1);
      if h - 1 < |q| {
        hide NoRepeats;
        TurnFacts(s, tick, fp, q, h - 1);
      }
    }
  }

  lemma {:induction false} QueueGrows(s: System, tick: nat, fp: nat, root: nat, h: nat, n: nat)
    requires h <= n
    ensures Queue(s, tick, fp, root, h) <= Queue(s, tick, fp, root, n)
    decreases n
  {
    hide Turn, NoRepeats;
    if h < n {
      var q := Queue(s, tick, fp, root, n - 1);
      QueueGrows(s, tick, fp, root, h, n - 1);
      QueueDistinct(s, tick, fp, root, n - 1);
      if n - 1 < |q| {
        TurnFacts(s, tick, fp, q, n - 1);
      }
    }
  }

  /** An exhausted queue grows no further. */
  lemma {:induction false} QueueEnds(s: System, tick: nat, fp: nat, root: nat, h: nat, n: nat)
    requires |Queue(s, tick, fp, root, h)| <= h <= n
    ensures Queue(s, tick, fp, root, n) == Queue(s, tick, fp, root, h)
    decreases n
  {
    if h < n {
      QueueEnds(s, tick, fp, root, h, n - 1);
    }
  }

  /** A queued domain is the root or was queued by a turn on a predecessor. */
  lemma {:induction false} QueuedBy(s: System, tick: nat, fp: nat, root: nat, h: nat, y: nat) returns (i: nat)
    requires y in Queue(s, tick, fp, root, h) && y != root
    ensures i < h && i < |Queue(s, tick, fp, root, h)| && Edge(Links(s, tick, fp), Queue(s, tick, fp, root, h)[i], y)
  {
    hide Turn, Links, Edge, NoRepeats;
    var q, q' := Queue(s, tick, fp, root, h - 1), Queue(s, tick, fp, root, h);
    QueueGrows(s, tick, fp, root, h - 1, h);
    if y in q {
      i := QueuedBy(s, tick, fp, root, h - 1, y);
    } else {
      i := h - 1;
      QueueDistinct(s, tick, fp, root, h - 1);
      TurnFacts(s, tick, fp, q, h - 1);
      assert q' == q + q'[|q|..];
      var j :| |q| <= j < |q'| && q'[j] == y;
    }
  }

  /** The turn on x queues all its successors. */
  lemma SuccessorsQueued(s: System, tick: nat, fp: nat, root: nat, h: nat, y: nat)
    requires h < |Queue(s, tick, fp, root, h)| && Edge(Links(s, tick, fp), Queue(s, tick, fp, root, h)[h], y)
    ensures y in Queue(s, tick, fp, root, h + 1)
  {
    hide Turn, Links, Edge, NoRepeats;
    QueueDistinct(s, tick, fp, root, h);
    TurnFacts(s, tick, fp, Queue(s, tick, fp, root, h), h);
  }

  // ----- the effect of visiting domains in order

  /** How many visits before the i-th rolled back undo entries; it is the depth of the i-th visit. */
  ghost function Depth(s: System, tick: nat, fp: nat, order: seq<nat>, i: nat): nat
    requires Rings(s) && i <= |order| && forall k :: 0 <= k < |order| ==> order[k] in s
  {
    if i == 0 then 0
    else
      var d := Depth(s, tick, fp, order, i - 1);
      if Counts(s[order[i - 1]], tick, fp, d) then d + 1 else d
  }

  /** The system after the first n visits. */
  ghost function Visited(s: System, tick: nat, fp: nat, order: seq<nat>, n: nat): (s': System)
    requires Rings(s) && n <= |order| && forall k :: 0 <= k < |order| ==> order[k] in s
    ensures s'.Keys == s.Keys
  {
    if n == 0 then s
    else
      var x := order[n - 1];
      Visited(s, tick, fp, order, n - 1)[x := Attempt(s[x], tick, fp, Depth(s, tick, fp, order, n - 1))]
  }

  /** A domain that is not visited does not change. */
  lemma {:induction false} NotVisited(s: System, tick: nat, fp: nat, order: seq<nat>, n: nat, id: nat)
    requires Rings(s) && n <= |order| && id in s && forall k :: 0 <= k < |order| ==> order[k] in s
    requires forall k :: 0 <= k < n ==> order[k] != id
    ensures Visited(s, tick, fp, order, n)[id] == s[id]
  {
    hide Attempt, Depth;
    if n > 0 {
      NotVisited(s, tick, fp, order, n - 1, id);
    }
  }

  /** A visited domain changes by its own visit only. */
  lemma {:induction false} VisitedOnce(s: System, tick: nat, fp: nat, order: seq<nat>, n: nat, k: nat)
    requires Rings(s) && k < n <= |order| && NoRepeats(order) && forall k :: 0 <= k < |order| ==> order[k] in s
    ensures Visited(s, tick, fp, order, n)[order[k]] == Attempt(s[order[k]], tick, fp, Depth(s, tick, fp, order, k))
  {
    hide Attempt, Depth;
    if k < n - 1 {
      VisitedOnce(s, tick, fp, order, n - 1, k);
    }
  }

  /** Depth only looks at the visits before it. */
  lemma {:induction false} DepthPrefix(s: System, tick: nat, fp: nat, q: seq<nat>, q': seq<nat>, i: nat)
    requires Rings(s) && i <= |q| && q <= q' && forall k :: 0 <= k < |q'| ==> q'[k] in s
    ensures Depth(s, tick, fp, q, i) == Depth(s, tick, fp, q', i)
  {
    hide Counts;
    if i > 0 {
      DepthPrefix(s, tick, fp, q, q', i - 1);
    }
  }

  lemma {:induction false} VisitedPrefix(s: System, tick: nat, fp: nat, q: seq<nat>, q': seq<nat>, n: nat)
    requires Rings(s) && n <= |q| && q <= q' && forall k :: 0 <= k < |q'| ==> q'[k] in s
    ensures Visited(s, tick, fp, q, n) == Visited(s, tick, fp, q', n)
  {
    hide Counts, Attempt;
    if n > 0 {
      VisitedPrefix(s, tick, fp, q, q', n - 1);
      DepthPrefix(s, tick, fp, q, q', n - 1);
    }
  }

  /** Memory after the first n visits. */
  ghost function VisitedMemory(s: System, tick: nat, fp: nat, order: seq<nat>, n: nat, m: seq<Byte>): (m': seq<Byte>)
    requires Rings(s) && AllLoaded(s, |m|) && n <= |order| && forall k :: 0 <= k < |order| ==> order[k] in s
    ensures |m'| == |m|
  {
    if n == 0 then m
    else
      AttemptMemory(s[order[n - 1]], tick, fp, Depth(s, tick, fp, order, n - 1),
                    VisitedMemory(s, tick, fp, order, n - 1, m))
  }

  lemma {:induction false} VisitedMemoryPrefix(s: System, tick: nat, fp: nat, q: seq<nat>, q': seq<nat>, n: nat,
                                               m: seq<Byte>)
    requires Rings(s) && AllLoaded(s, |m|) && n <= |q| && q <= q' && forall k :: 0 <= k < |q'| ==> q'[k] in s
    ensures VisitedMemory(s, tick, fp, q, n, m) == VisitedMemory(s, tick, fp, q', n, m)
  {
    hide AttemptMemory, AllLoaded, Rings;
    if n > 0 {
      VisitedMemoryPrefix(s, tick, fp, q, q', n - 1, m);
      DepthPrefix(s, tick, fp, q, q', n - 1);
    }
  }

  // ----- one step of the search

  /** The search is one domain further: its successors have been appended to q. */
  lemma ExploreStep(g: Graph, root: nat, q: seq<nat>, q': seq<nat>, h: nat)
    requires Explored(g, root, q, h) && h < |q| && q <= q' && NoRepeats(q')
    requires forall i :: |q| <= i < |q'| ==> Edge(g, q[h], q'[i])
    requires forall y :: Edge(g, q[h], y) ==> y in q'
    ensures Explored(g, root, q', h + 1)
  {
    hide Reachable;
    assert forall x :: x in q ==> x in q' by { assert forall i :: 0 <= i < |q| ==> q[i] == q'[i]; }
    forall i | 0 <= i < |q'|
      ensures q'[i] in g && Reachable(g, root, q'[i])
    {
      if i < |q| {
        assert q'[i] == q[i];
      } else {
        ExtendReachable(g, root, q[h], q'[i]);
      }
    }
    forall i, y | 0 <= i < h + 1 && Edge(g, q'[i], y)
      ensures y in q'
    {
      assert q'[i] == q[i];
    }
  }

  lemma VisitedStep(s: System, tick: nat, fp: nat, q: seq<nat>, h: nat)
    requires Rings(s) && h < |q| && forall k :: 0 <= k < |q| ==> q[k] in s
    ensures Visited(s, tick, fp, q, h + 1)
      == Visited(s, tick, fp, q, h)[q[h] := Attempt(s[q[h]], tick, fp, Depth(s, tick, fp, q, h))]
    ensures Depth(s, tick, fp, q, h + 1)
      == Depth(s, tick, fp, q, h) + if Counts(s[q[h]], tick, fp, Depth(s, tick, fp, q, h)) then 1 else 0
  {
    hide Attempt, Counts;
  }

  lemma VisitedMemoryStep(s: System, tick: nat, fp: nat, q: seq<nat>, h: nat, m: seq<Byte>)
    requires Rings(s) && AllLoaded(s, |m|) && h < |q| && forall k :: 0 <= k < |q| ==> q[k] in s
    ensures VisitedMemory(s, tick, fp, q, h + 1, m)
      == AttemptMemory(s[q[h]], tick, fp, Depth(s, tick, fp, q, h), VisitedMemory(s, tick, fp, q, h, m))
  {
    hide AttemptMemory, Depth;
  }

  // ----- what a cascade means for one domain

  /** A domain either did not change or made one operation of its own. */
  ghost predicate Moves(a: Dom, b: Dom) {
    |a.barriers.ring| == MAX_BARRIER_SNAPSHOTS && (a == b || exists op :: b == Step(a, op))
  }

  /** One call of cascade_rollback: what it was asked, whom it visited in which order, and what was before and after. */
  datatype CascadeRun = CascadeRun(
    root: nat,
    tick: nat,
    fp: nat,
    order: seq<nat>,
    rolledBack: nat,
    before: System,
    after: System,
    mem: seq<Byte>,
    mem': seq<Byte>)

  /** The reachable domains are visited once each, breadth first, with the visits' effect on domains and memory. */
  ghost predicate CascadeEffect(c: CascadeRun) {
    && Rings(c.before) && AllLoaded(c.before, |c.mem|) && NoRepeats(c.order)
    && c.order == Queue(c.before, c.tick, c.fp, c.root, |c.order|)
    && (forall id :: id in c.order <==> Reachable(Links(c.before, c.tick, c.fp), c.root, id))
    && (forall k :: 0 <= k < |c.order| ==> c.order[k] in c.before)
    && c.after == Visited(c.before, c.tick, c.fp, c.order, |c.order|)
    && c.mem' == VisitedMemory(c.before, c.tick, c.fp, c.order, |c.order|, c.mem)
    && c.rolledBack == Depth(c.before, c.tick, c.fp, c.order, |c.order|)
  }

  ghost predicate CascadeReaches(c: CascadeRun, id: nat) {
    Reachable(Links(c.before, c.tick, c.fp), c.root, id)
  }

  lemma CascadeKeepsKeys(c: CascadeRun)
    requires CascadeEffect(c)
    ensures c.after.Keys == c.before.Keys && Rings(c.before) && |c.mem'| == |c.mem|
  {
    hide Visited, VisitedMemory, Depth, Reachable, Rings;
  }

  /** Each domain of a cascade is attempted once if it is reachable and left alone if it is not. */
  lemma CascadeAt(c: CascadeRun, id: nat)
    requires CascadeEffect(c) && id in c.before
    ensures id in c.after
    ensures !CascadeReaches(c, id) ==> c.after[id] == c.before[id]
    ensures CascadeReaches(c, id) ==> exists depth :: c.after[id] == Attempt(c.before[id], c.tick, c.fp, depth)
  {
    hide Attempt, Depth, Visited, VisitedMemory, Reachable;
    if id in c.order {
      var k :| 0 <= k < |c.order| && c.order[k] == id;
      VisitedOnce(c.before, c.tick, c.fp, c.order, |c.order|, k);
    } else {
      NotVisited(c.before, c.tick, c.fp, c.order, |c.order|, id);
    }
  }

  lemma CascadeMoves(c: CascadeRun, id: nat)
    requires CascadeEffect(c) && id in c.before
    ensures id in c.after && Moves(c.before[id], c.after[id]) && StaysOut(c.before[id], c.after[id])
  {
    hide CascadeEffect, Attempt, CascadeReaches, NothingPopped;
    CascadeKeepsKeys(c);
    CascadeAt(c, id);
    if CascadeReaches(c, id) {
      var depth :| c.after[id] == Attempt(c.before[id], c.tick, c.fp, depth);
      assert Step(c.before[id], AttemptOp(c.tick, c.fp, depth)) == c.after[id];
      StepStaysOut(c.before[id], AttemptOp(c.tick, c.fp, depth));
    } else {
      SameLogNothingPopped(c.before[id].log);
    }
  }

  // ----- the order of a cascade

  /** What a cascade does is determined by what it is asked and what it finds. */
  lemma CascadeDeterminate(c: CascadeRun, c': CascadeRun)
    requires CascadeEffect(c) && CascadeEffect(c')
    requires c.root == c'.root && c.tick == c'.tick && c.fp == c'.fp && c.before == c'.before && c.mem == c'.mem
    ensures c == c'
  {
    hide Queue, Visited, VisitedMemory, Depth, Reachable, Links, Rings, AllLoaded, NoRepeats;
    var n, n' := |c.order|, |c'.order|;
    if n <= n' {
      QueueEnds(c.before, c.tick, c.fp, c.root, n, n');
    } else {
      QueueEnds(c.before, c.tick, c.fp, c.root, n', n);
    }
  }

  /** The cascade goes on from its i-th to its j-th domain. */
  ghost predicate Follows(c: CascadeRun, i: nat, j: nat)
    requires i < |c.order| && j < |c.order|
  {
    Edge(Links(c.before, c.tick, c.fp), c.order[i], c.order[j])
  }

  /** The root is visited first, and the queue of each turn is a prefix of the order. */
  lemma CascadeStartsAtRoot(c: CascadeRun)
    requires CascadeEffect(c)
    ensures c.root in c.before ==> c.order != [] && c.order[0] == c.root
    ensures forall h: nat :: h <= |c.order| ==> Queue(c.before, c.tick, c.fp, c.root, h) <= c.order
  {
    hide Visited, VisitedMemory, Depth, Reachable, Links, Rings, AllLoaded, NoRepeats, Turn;
    forall h: nat | h <= |c.order|
      ensures Queue(c.before, c.tick, c.fp, c.root, h) <= c.order
    {
      QueueGrows(c.before, c.tick, c.fp, c.root, h, |c.order|);
    }
    assert Queue(c.before, c.tick, c.fp, c.root, 0) <= c.order;
  }

  /**
    Breadth first: of two domains the one visited first has a predecessor that is visited no later than any predecessor
    of the other.
  */
  lemma CascadeIsBreadthFirst(c: CascadeRun, j: nat, j': nat, i': nat) returns (i: nat)
    requires CascadeEffect(c) && 0 < j < j' < |c.order| && i' < |c.order| && Follows(c, i', j')
    ensures i <= i' && Follows(c, i, j)
  {
    hide Queue, Visited, VisitedMemory, Depth, Reachable, Links, Rings, AllLoaded, Edge;
    CascadeStartsAtRoot(c);
    TurnReached(c, i');
    SuccessorsQueued(c.before, c.tick, c.fp, c.root, i', c.order[j']);
    var q := Queue(c.before, c.tick, c.fp, c.root, i' + 1);
    var k :| 0 <= k < |q| && q[k] == c.order[j'];
    assert c.order[k] == c.order[j'];
    assert q[j] == c.order[j];
    RootIsFirst(c, j);
    i := QueuedBy(c.before, c.tick, c.fp, c.root, i' + 1, c.order[j]);
  }

  /** Before its turn a domain is queued at its place. */
  lemma TurnReached(c: CascadeRun, h: nat)
    requires CascadeEffect(c) && h < |c.order|
    ensures h < |Queue(c.before, c.tick, c.fp, c.root, h)| && Queue(c.before, c.tick, c.fp, c.root, h)[h] == c.order[h]
  {
    hide Queue, Visited, VisitedMemory, Depth, Reachable, Links, Rings, AllLoaded, NoRepeats;
    CascadeStartsAtRoot(c);
    if |Queue(c.before, c.tick, c.fp, c.root, h)| <= h {
      QueueEnds(c.before, c.tick, c.fp, c.root, h, |c.order|);
    }
  }

  lemma RootIsFirst(c: CascadeRun, j: nat)
    requires CascadeEffect(c) && 0 < j < |c.order|
    ensures c.order[j] != c.root
  {
    hide Queue, Visited, VisitedMemory, Depth, Reachable, Links, Rings, AllLoaded;
    CascadeStartsAtRoot(c);
  }

  // ----- when a cascade rolls something back

  lemma {:induction false} DepthPositiveIff(s: System, tick: nat, fp: nat, order: seq<nat>, n: nat)
    requires Rings(s) && n <= |order| && forall k :: 0 <= k < |order| ==> order[k] in s
    ensures Depth(s, tick, fp, order, n) > 0 <==> exists k :: 0 <= k < n && Counts(s[order[k]], tick, fp, 0)
  {
    hide Counts;
    if n > 0 {
      DepthPositiveIff(s, tick, fp, order, n - 1);
    }
  }

  /** Some domain the cascade reaches is granted a rollback and has undo entries of its current generation. */
  ghost predicate Fruitful(s: System, root: nat, tick: nat, fp: nat)
    requires Rings(s)
  {
    exists id :: id in s && Reachable(Links(s, tick, fp), root, id) && Counts(s[id], tick, fp, 0)
  }

  /** A cascade reports a rollback exactly when it is fruitful. */
  lemma CascadeSucceedsIff(c: CascadeRun)
    requires CascadeEffect(c)
    ensures c.rolledBack > 0 <==> Fruitful(c.before, c.root, c.tick, c.fp)
  {
    hide Visited, VisitedMemory, Depth, Reachable, Counts, Links;
    DepthPositiveIff(c.before, c.tick, c.fp, c.order, |c.order|);
    if Fruitful(c.before, c.root, c.tick, c.fp) {
      var id :| && id in c.before && Reachable(Links(c.before, c.tick, c.fp), c.root, id)
                && Counts(c.before[id], c.tick, c.fp, 0);
      var k :| 0 <= k < |c.order| && c.order[k] == id;
    }
  }

  /** No log of s' is longer than it was in s. */
  ghost predicate LogsShrink(s: System, s': System) {
    s.Keys == s'.Keys && forall id :: id in s ==> |s'[id].log.es| <= |s[id].log.es|
  }

  /** Some log of s' is shorter than it was in s. */
  ghost predicate SomePopped(s: System, s': System) {
    exists id :: id in s && id in s' && |s'[id].log.es| < |s[id].log.es|
  }

  lemma AttemptShrinksLog(d: Dom, tick: nat, fp: nat, depth: nat)
    requires |d.barriers.ring| == MAX_BARRIER_SNAPSHOTS
    ensures |Attempt(d, tick, fp, depth).log.es| <= |d.log.es|
    ensures Counts(d, tick, fp, depth) ==> |Attempt(d, tick, fp, depth).log.es| < |d.log.es|
  {
    hide Try, Keep, CutAt;
  }

  lemma CascadeShrinksLogs(c: CascadeRun)
    requires CascadeEffect(c)
    ensures LogsShrink(c.before, c.after)
    ensures c.rolledBack > 0 ==> SomePopped(c.before, c.after)
  {
    hide CascadeEffect, Attempt, CascadeReaches, Counts;
    CascadeKeepsKeys(c);
    forall id | id in c.before
      ensures |c.after[id].log.es| <= |c.before[id].log.es|
    {
      CascadeAt(c, id);
      if CascadeReaches(c, id) {
        var depth :| c.after[id] == Attempt(c.before[id], c.tick, c.fp, depth);
        AttemptShrinksLog(c.before[id], c.tick, c.fp, depth);
      }
    }
    if c.rolledBack > 0 {
      var k := FirstPop(c);
      AttemptShrinksLog(c.before[c.order[k]], c.tick, c.fp, 0);
    }
  }

  /** The first visit that pops entries is made at depth 0. */
  lemma FirstPop(c: CascadeRun) returns (k: nat)
    requires CascadeEffect(c) && c.rolledBack > 0
    ensures k < |c.order| && c.order[k] in c.before && c.order[k] in c.after
    ensures |c.before[c.order[k]].barriers.ring| == MAX_BARRIER_SNAPSHOTS
    ensures Counts(c.before[c.order[k]], c.tick, c.fp, 0)
    ensures c.after[c.order[k]] == Attempt(c.before[c.order[k]], c.tick, c.fp, 0)
  {
    hide Visited, VisitedMemory, Attempt, Reachable, Counts, Links;
    k := FirstCounting(c.before, c.tick, c.fp, c.order, |c.order|);
    VisitedOnce(c.before, c.tick, c.fp, c.order, |c.order|, k);
  }

  lemma {:induction false} FirstCounting(s: System, tick: nat, fp: nat, order: seq<nat>, n: nat) returns (k: nat)
    requires Rings(s) && n <= |order| && forall k :: 0 <= k < |order| ==> order[k] in s
    requires Depth(s, tick, fp, order, n) > 0
    ensures k < n && Depth(s, tick, fp, order, k) == 0 && Counts(s[order[k]], tick, fp, 0)
  {
    hide Counts;
    if Depth(s, tick, fp, order, n - 1) > 0 {
      k := FirstCounting(s, tick, fp, order, n - 1);
    } else {
      k := n - 1;
    }
  }

  // ----- how deep each visit rolls back

  ghost function Earlier(turns: set<nat>, k: nat): set<nat> {
    set j | j in turns && j < k
  }

  /** A visit at this depth is granted, and the newest entry is not older than the generation aimed at. */
  ghost predicate Pops(d: Dom, tick: nat, fp: nat, depth: nat)
    requires |d.barriers.ring| == MAX_BARRIER_SNAPSHOTS
  {
    var es := d.log.es;
    TryOk(d.guard, tick, fp) && es != [] && es[|es| - 1].generation >= TargetGeneration(d.barriers, depth)
  }

  lemma PopsIff(d: Dom, tick: nat, fp: nat, depth: nat)
    requires |d.barriers.ring| == MAX_BARRIER_SNAPSHOTS
    ensures Pops(d, tick, fp, depth) <==> Counts(d, tick, fp, depth)
  {
    hide TryOk, TargetGeneration;
  }

  /** One more turn leaves the earlier ones as they are and counts if it is added. */
  lemma EarlierStep(turns: set<nat>, n: nat, add: bool)
    requires forall k :: k in turns ==> k < n
    ensures var turns' := turns + if add then {n} else {};
      && (forall k: nat :: k <= n ==> Earlier(turns', k) == Earlier(turns, k))
      && |Earlier(turns', n + 1)| == |Earlier(turns, n)| + if add then 1 else 0
  {
    assert Earlier(turns, n) == turns;
    assert Earlier(turns + {n}, n + 1) == turns + {n} && Earlier(turns, n + 1) == turns;
  }

  lemma EarlierNone(k: nat)
    ensures Earlier({}, k) == {}
  {
  }

  lemma DepthZero(s: System, tick: nat, fp: nat, order: seq<nat>)
    requires Rings(s) && forall k :: 0 <= k < |order| ==> order[k] in s
    ensures Depth(s, tick, fp, order, 0) == 0
  {
  }

  lemma DepthStep(s: System, tick: nat, fp: nat, order: seq<nat>, i: nat)
    requires Rings(s) && i < |order| && forall k :: 0 <= k < |order| ==> order[k] in s
    ensures var d := Depth(s, tick, fp, order, i);
      Depth(s, tick, fp, order, i + 1) == d + if Counts(s[order[i]], tick, fp, d) then 1 else 0
  {
    hide Counts;
  }

  lemma {:induction false} DepthCounts(s: System, tick: nat, fp: nat, order: seq<nat>, n: nat) returns (turns: set<nat>)
    requires Rings(s) && n <= |order| && forall k :: 0 <= k < |order| ==> order[k] in s
    ensures forall k :: k in turns ==> k < n
    ensures forall k: nat :: k <= n ==> |Earlier(turns, k)| == Depth(s, tick, fp, order, k)
    ensures forall k: nat :: k < n ==>
      (k in turns <==> Counts(s[order[k]], tick, fp, Depth(s, tick, fp, order, k)))
  {
    hide Counts, Earlier, Depth;
    if n == 0 {
      turns := {};
      EarlierNone(0);
      DepthZero(s, tick, fp, order);
    } else {
      turns := DepthCounts(s, tick, fp, order, n - 1);
      var add := Counts(s[order[n - 1]], tick, fp, Depth(s, tick, fp, order, n - 1));
      DepthStep(s, tick, fp, order, n - 1);
      EarlierStep(turns, n - 1, add);
      turns := turns + if add then {n - 1} else {};
    }
  }

  /**
    The count a cascade returns is the number of turns that popped entries, and each visit rolls back as many barriers
    as there were such turns before it.
  */
  lemma CascadeCounts(c: CascadeRun) returns (turns: set<nat>)
    requires CascadeEffect(c)
    ensures (forall k :: k in turns ==> k < |c.order|) && |turns| == c.rolledBack
    ensures forall k: nat :: k < |c.order| ==>
      var id, depth := c.order[k], |Earlier(turns, k)|;
      && (k in turns <==> Pops(c.before[id], c.tick, c.fp, depth))
      && id in c.after && c.after[id] == Attempt(c.before[id], c.tick, c.fp, depth)
  {
    hide Visited, VisitedMemory, Attempt, Depth, Counts, Pops, Reachable, Queue, Links;
    turns := DepthCounts(c.before, c.tick, c.fp, c.order, |c.order|);
    assert Earlier(turns, |c.order|) == turns;
    forall k: nat | k < |c.order|
      ensures var id, depth := c.order[k], |Earlier(turns, k)|;
        && (k in turns <==> Pops(c.before[id], c.tick, c.fp, depth))
        && id in c.after && c.after[id] == Attempt(c.before[id], c.tick, c.fp, depth)
    {
      PopsIff(c.before[c.order[k]], c.tick, c.fp, |Earlier(turns, k)|);
      VisitedOnce(c.before, c.tick, c.fp, c.order, |c.order|, k);
    }
  }

  // ----- a cascade that rolls nothing back

  lemma {:induction false} DepthMonotone(s: System, tick: nat, fp: nat, order: seq<nat>, i: nat, n: nat)
    requires Rings(s) && i <= n <= |order| && forall k :: 0 <= k < |order| ==> order[k] in s
    ensures Depth(s, tick, fp, order, i) <= Depth(s, tick, fp, order, n)
    decreases n
  {
    hide Counts;
    if i < n {
      DepthMonotone(s, tick, fp, order, i, n - 1);
    }
  }

  lemma IdleAttempt(d: Dom, tick: nat, fp: nat, m: seq<Byte>)
    requires Loaded(d, |m|) && !Counts(d, tick, fp, 0)
    ensures AttemptMemory(d, tick, fp, 0, m) == m
  {
    hide Undo;
    var es := d.log.es;
    assert es[|es|..] == [];
    UndoNothing(m);
  }

  lemma {:induction false} IdleVisits(s: System, tick: nat, fp: nat, order: seq<nat>, n: nat, m: seq<Byte>)
    requires Rings(s) && AllLoaded(s, |m|) && n <= |order| && forall k :: 0 <= k < |order| ==> order[k] in s
    requires Depth(s, tick, fp, order, n) == 0
    ensures VisitedMemory(s, tick, fp, order, n, m) == m
  {
    hide AttemptMemory, Counts, Loaded, Rings;
    if n > 0 {
      DepthMonotone(s, tick, fp, order, n - 1, n);
      IdleVisits(s, tick, fp, order, n - 1, m);
      IdleAttempt(s[order[n - 1]], tick, fp, m);
    }
  }

  /** A cascade that reports no rollback leaves memory as it was. */
  lemma IdleCascadeKeepsMemory(c: CascadeRun)
    requires CascadeEffect(c) && c.rolledBack == 0
    ensures c.mem' == c.mem
  {
    hide Queue, Visited, VisitedMemory, Depth, Reachable, Links, Rings, AllLoaded, NoRepeats;
    IdleVisits(c.before, c.tick, c.fp, c.order, |c.order|, c.mem);
  }

  // ----- what a cascade does to memory

  lemma AttemptLeavesRest(d: Dom, tick: nat, fp: nat, depth: nat, m: seq<Byte>, i: nat)
    requires Loaded(d, |m|) && i < |m| && !Touches(d.log.es, i)
    ensures AttemptMemory(d, tick, fp, depth, m)[i] == m[i]
  {
    hide RollbackMemory, Touches;
    RollbackLeavesRest(d.log.es, TargetGeneration(d.barriers, depth), m, i);
  }

  lemma AttemptAgrees(d: Dom, tick: nat, fp: nat, depth: nat, m: seq<Byte>, m': seq<Byte>)
    requires Loaded(d, |m|) && AgreeOn(d.log.es, m, m')
    ensures AgreeOn(d.log.es, AttemptMemory(d, tick, fp, depth, m), AttemptMemory(d, tick, fp, depth, m'))
  {
    hide RollbackMemory, Touches;
    RollbackAgrees(d.log.es, TargetGeneration(d.barriers, depth), m, m');
  }

  /** Visits leave a byte alone that none of the visited domains records. */
  lemma {:induction false} VisitsLeaveRest(s: System, tick: nat, fp: nat, order: seq<nat>, n: nat, m: seq<Byte>, i: nat)
    requires Rings(s) && AllLoaded(s, |m|) && n <= |order| && forall k :: 0 <= k < |order| ==> order[k] in s
    requires i < |m| && forall k :: 0 <= k < n ==> !Touches(s[order[k]].log.es, i)
    ensures VisitedMemory(s, tick, fp, order, n, m)[i] == m[i]
  {
    hide AttemptMemory, Depth, Touches, Loaded, Rings;
    if n > 0 {
      VisitsLeaveRest(s, tick, fp, order, n - 1, m, i);
      AttemptLeavesRest(s[order[n - 1]], tick, fp, Depth(s, tick, fp, order, n - 1),
                        VisitedMemory(s, tick, fp, order, n - 1, m), i);
    }
  }

  /** No byte is recorded by two domains. */
  ghost predicate Apart(s: System) {
    forall a, b, i: nat :: a in s && b in s && Touches(s[a].log.es, i) && Touches(s[b].log.es, i) ==> a == b
  }

  /** A byte of the k-th visited domain ends as that domain's own visit alone would leave it. */
  lemma {:induction false} VisitsMindTheirOwn(s: System, tick: nat, fp: nat, order: seq<nat>, n: nat, k: nat,
                                              m: seq<Byte>, i: nat)
    requires Rings(s) && AllLoaded(s, |m|) && k < n <= |order| && NoRepeats(order) && Apart(s)
    requires (forall j :: 0 <= j < |order| ==> order[j] in s) && i < |m| && Touches(s[order[k]].log.es, i)
    ensures VisitedMemory(s, tick, fp, order, n, m)[i]
      == AttemptMemory(s[order[k]], tick, fp, Depth(s, tick, fp, order, k), m)[i]
  {
    hide AttemptMemory, Depth, Touches, Loaded, Rings, VisitedMemory;
    VisitedMemoryStep(s, tick, fp, order, n - 1, m);
    var before, depth := VisitedMemory(s, tick, fp, order, n - 1, m), Depth(s, tick, fp, order, n - 1);
    if k < n - 1 {
      VisitsMindTheirOwn(s, tick, fp, order, n - 1, k, m, i);
      assert order[k] != order[n - 1];
      AttemptLeavesRest(s[order[n - 1]], tick, fp, depth, before, i);
    } else {
      forall j: nat | j < |m| && Touches(s[order[k]].log.es, j)
        ensures before[j] == m[j]
      {
        VisitsLeaveRest(s, tick, fp, order, k, m, j);
      }
      AttemptAgrees(s[order[k]], tick, fp, depth, before, m);
    }
  }

  /**
    A cascade changes no byte that no reached domain records, and where domains record different bytes it leaves in each
    reached domain's bytes what a rollback attempt of that domain alone leaves there.
  */
  lemma CascadeMemoryAt(c: CascadeRun, i: nat)
    requires CascadeEffect(c) && i < |c.mem| == |c.mem'|
    ensures Unrecorded(c, i) ==> c.mem'[i] == c.mem[i]
    ensures Apart(c.before) ==>
      forall id :: id in c.before && CascadeReaches(c, id) && Touches(c.before[id].log.es, i) ==> OwnVisit(c, id, i)
  {
    hide AttemptMemory, Depth, Touches, Loaded, Rings, VisitedMemory, Visited, Attempt, Apart, Links, Reachable;
    var s, n := c.before, |c.order|;
    if Unrecorded(c, i) {
      assert forall k :: 0 <= k < n ==> c.order[k] in c.order;
      VisitsLeaveRest(s, c.tick, c.fp, c.order, n, c.mem, i);
    }
    if Apart(s) {
      forall id | id in s && CascadeReaches(c, id) && Touches(s[id].log.es, i)
        ensures OwnVisit(c, id, i)
      {
        var k :| 0 <= k < n && c.order[k] == id;
        VisitsMindTheirOwn(s, c.tick, c.fp, c.order, n, k, c.mem, i);
        VisitedOnce(s, c.tick, c.fp, c.order, n, k);
        assert OwnVisitAt(c, id, i, Depth(s, c.tick, c.fp, c.order, k));
      }
    }
  }

  /** No reached domain records the byte. */
  ghost predicate Unrecorded(c: CascadeRun, i: nat) {
    forall id :: id in c.before && CascadeReaches(c, id) ==> !Touches(c.before[id].log.es, i)
  }

  /** Domain and byte are as after the domain's own visit at some depth. */
  ghost predicate OwnVisit(c: CascadeRun, id: nat, i: nat)
    requires id in c.before && i < |c.mem| == |c.mem'|
  {
    exists depth :: OwnVisitAt(c, id, i, depth)
  }

  ghost predicate OwnVisitAt(c: CascadeRun, id: nat, i: nat, depth: nat)
    requires id in c.before && i < |c.mem| == |c.mem'|
  {
    && id in c.after && Loaded(c.before[id], |c.mem|)
    && c.after[id] == Attempt(c.before[id], c.tick, c.fp, depth)
    && c.mem'[i] == AttemptMemory(c.before[id], c.tick, c.fp, depth, c.mem)[i]
  }

  // ----- what a tick does to memory

  /** Memory after the domains in the first n slots had their tick. */
  ghost function TickedMemory(s: System, slots: seq<Option<nat>>, tick: nat, n: nat, m: seq<Byte>): (m': seq<Byte>)
    requires AllLoaded(s, |m|) && n <= |slots|
    ensures |m'| == |m|
  {
    if n == 0 then m
    else
      var rest := TickedMemory(s, slots, tick, n - 1, m);
      if slots[n - 1].Some? && slots[n - 1].value in s then TickMemory(s[slots[n - 1].value], tick, rest) else rest
  }

  lemma TickedMemoryStep(s: System, slots: seq<Option<nat>>, tick: nat, n: nat, m: seq<Byte>)
    requires AllLoaded(s, |m|) && n < |slots|
    ensures slots[n].Some? && slots[n].value in s ==> Loaded(s[slots[n].value], |m|)
    ensures TickedMemory(s, slots, tick, 0, m) == m
    ensures var rest := TickedMemory(s, slots, tick, n, m);
      TickedMemory(s, slots, tick, n + 1, m) ==
      (if slots[n].Some? && slots[n].value in s then TickMemory(s[slots[n].value], tick, rest) else rest)
  {
    hide TickMemory;
  }

  // ----- runs of the whole system

  /**
    A cascade, a tick, a boot check, a record, a heartbeat, a registration or a removal: every domain registered before
    and after stays as it is or makes one operation of its own.
  */
  ghost predicate SystemStep(s: System, s': System) {
    forall id :: id in s && id in s' ==> Moves(s[id], s'[id])
  }

  /** One operation of one domain, if it is registered. */
  ghost function Operated(s: System, id: nat, op: DomOp): System
    requires Rings(s)
  {
    if id in s then s[id := Step(s[id], op)] else s
  }

  /**
    After add_dep a cascade goes on from dep to id exactly when dep is granted a rollback and id was among its
    dependents before or a slot was free.
  */
  lemma AddDepLinks(s: System, id: nat, dep: nat, tick: nat, fp: nat)
    requires Rings(s) && id in s && dep in s
    ensures var s' := Operated(Operated(s, id, DependsOnOp(dep)), dep, DependedByOp(id));
      Edge(Links(s', tick, fp), dep, id) <==>
      TryOk(s[dep].guard, tick, fp) && (Some(id) in s[dep].dependedBy || None in s[dep].dependedBy)
  {
    AddedSlotHolds(s[dep].dependedBy, id);
  }

  lemma CascadeIsSystemStep(c: CascadeRun)
    requires CascadeEffect(c)
    ensures SystemStep(c.before, c.after)
  {
    hide CascadeEffect, Moves, StaysOut;
    forall id | id in c.before
      ensures id in c.after && Moves(c.before[id], c.after[id])
    {
      CascadeMoves(c, id);
    }
  }

  ghost predicate SystemRun(states: seq<System>) {
    forall k :: 0 < k < |states| ==> SystemStep(states[k - 1], states[k])
  }

  /** The domain stays registered through the first n steps. */
  ghost predicate Stays(states: seq<System>, n: nat, id: nat) {
    n < |states| && forall k :: 0 <= k <= n ==> id in states[k]
  }

  /** Whatever the system goes through, a domain that stays registered goes through a run of its own. */
  lemma {:induction false} SystemRunProjects(states: seq<System>, n: nat, id: nat) returns (ops: seq<DomOp>)
    requires SystemRun(states) && Stays(states, n, id) && |states[0][id].barriers.ring| == MAX_BARRIER_SNAPSHOTS
    ensures states[n][id] == Run(states[0][id], ops)
  {
    hide Step;
    if n == 0 {
      ops := [];
    } else {
      ops := SystemRunProjects(states, n - 1, id);
      assert SystemStep(states[n - 1], states[n]);
      var a, b := states[n - 1][id], states[n][id];
      assert Moves(a, b);
      if a != b {
        var op :| b == Step(a, op);
        assert (ops + [op])[..|ops|] == ops;
        ops := ops + [op];
      }
    }
  }

  /** Through any run of the system a domain's ring holds its last eight barriers, so depths wrap at eight. */
  lemma SystemRingInStep(states: seq<System>, n: nat, id: nat)
    requires SystemRun(states) && Stays(states, n, id) && InStep(states[0][id].barriers)
    ensures InStep(states[n][id].barriers)
  {
    hide Run, SystemRun, InStep;
    RingOfInStep(states[0][id].barriers);
    var ops := SystemRunProjects(states, n, id);
    RunInStep(states[0][id], ops);
  }

  /** A domain past the failure limit is never rolled back again, in any run of the system. */
  lemma SystemQuarantineIsFinal(states: seq<System>, n: nat, id: nat)
    requires SystemRun(states) && Stays(states, n, id) && |states[0][id].barriers.ring| == MAX_BARRIER_SNAPSHOTS
    ensures StaysOut(states[0][id], states[n][id])
  {
    hide StaysOut, Run, SystemRun;
    var ops := SystemRunProjects(states, n, id);
    QuarantineIsFinal(states[0][id], ops);
  }

  /** In any run of the system, k further rollbacks of a domain take at least 100 * k ticks. */
  lemma SystemRollbacksTakeTime(states: seq<System>, n: nat, id: nat)
    requires SystemRun(states) && Stays(states, n, id) && |states[0][id].barriers.ring| == MAX_BARRIER_SNAPSHOTS
    requires states[0][id].guard.backoffUntil >= states[0][id].guard.lastRollback + BACKOFF_BASE_TICKS
    ensures Spaced(states[0][id].guard, states[n][id].guard)
  {
    hide Run, SystemRun, Spaced;
    var ops := SystemRunProjects(states, n, id);
    RollbacksTakeTime(states[0][id], ops);
  }
}
