/** The device tree: nodes linked by id through parent fields and child lists, and its depth-first walk. */
module DevTrees {
  import opened Results
  import opened Graphs

  datatype Node = Node(id: nat, parent: Option<nat>, children: seq<nat>)

  /** The node vector with the two id counters; id 0 stands for no root. */
  datatype Tree = Tree(nodes: seq<Node>, nextId: nat, rootId: nat)

  const EMPTY: Tree := Tree([], 1, 0)

  // ----- lookup: the first node with the id

  function Position(nodes: seq<Node>, id: nat): (i: nat)
    ensures i <= |nodes|
    ensures i < |nodes| ==> nodes[i].id == id
    ensures forall j :: 0 <= j < i ==> nodes[j].id != id
  {
    if nodes == [] then 0
    else if nodes[0].id == id then 0
    else 1 + Position(nodes[1..], id)
  }

  function Get(nodes: seq<Node>, id: nat): (r: Option<Node>)
    ensures r.Some? ==> r.value.id == id
    ensures r.Some? <==> exists i :: 0 <= i < |nodes| && nodes[i].id == id
  {
    var i := Position(nodes, id);
    if i < |nodes| then Some(nodes[i]) else None
  }

  lemma PositionUnique(nodes: seq<Node>, id: nat, i: nat)
    requires i < |nodes| && nodes[i].id == id && forall j :: 0 <= j < i ==> nodes[j].id != id
    ensures Position(nodes, id) == i
  {
  }

  lemma GetAppend(nodes: seq<Node>, n: Node, id: nat)
    ensures Get(nodes + [n], id) ==
      (if Get(nodes, id).Some? then Get(nodes, id) else if n.id == id then Some(n) else None)
  {
    var all := nodes + [n];
    var i := Position(nodes, id);
    if i < |nodes| {
      assert all[i] == nodes[i];
      PositionUnique(all, id, i);
    } else if n.id == id {
      PositionUnique(all, id, |nodes|);
    }
  }

  lemma GetUpdate(nodes: seq<Node>, i: nat, n: Node, id: nat)
    requires i < |nodes| && i == Position(nodes, n.id)
    ensures Get(nodes[i := n], id) == if id == n.id then Some(n) else Get(nodes, id)
  {
    var all := nodes[i := n];
    if id == n.id {
      PositionUnique(all, id, i);
    } else if Position(nodes, id) < |nodes| {
      PositionUnique(all, id, Position(nodes, id));
    }
  }

  // ----- the operations on values

  function Adopt(nodes: seq<Node>, parent: nat, child: nat): seq<Node>
    requires Get(nodes, parent).Some?
  {
    var i := Position(nodes, parent);
    nodes[i := nodes[i].(children := nodes[i].children + [child])]
  }

  datatype Op = Init | Create(parent: Option<nat>)

  /** A failed creation still consumes an id. Without a parent the root adopts, if there is one. */
  function Step(t: Tree, op: Op): Tree {
    var id := t.nextId;
    match op
    case Init => Tree(t.nodes + [Node(id, None, [])], id + 1, id)
    case Create(Some(p)) =>
      if Get(t.nodes, p).Some? then Tree(Adopt(t.nodes, p, id) + [Node(id, Some(p), [])], id + 1, t.rootId)
      else t.(nextId := id + 1)
    case Create(None) =>
      if t.rootId != 0 && Get(t.nodes, t.rootId).Some? then
        Tree(Adopt(t.nodes, t.rootId, id) + [Node(id, Some(t.rootId), [])], id + 1, t.rootId)
      else
        Tree(t.nodes + [Node(id, None, [])], id + 1, t.rootId)
  }

  function Run(ops: seq<Op>): Tree {
    if ops == [] then EMPTY else Step(Run(ops[..|ops| - 1]), ops[|ops| - 1])
  }

  // ----- well-formed trees

  ghost predicate NodeOk(t: Tree, x: nat) {
    Get(t.nodes, x).Some? ==>
      var n := Get(t.nodes, x).value;
      && 0 < x < t.nextId
      && NoRepeats(n.children)
      && (n.parent.Some? ==> IsChild(t, n.parent.value, x))
  }

  /** c is in the child list of p. */
  ghost predicate IsChild(t: Tree, p: nat, c: nat) {
    Get(t.nodes, p).Some? && c in Get(t.nodes, p).value.children
  }

  /** Child lists name existing later nodes, which name the parent back. */
  ghost predicate ChildOk(t: Tree, p: nat, c: nat) {
    IsChild(t, p, c) ==> p < c && Get(t.nodes, c).Some? && Get(t.nodes, c).value.parent == Some(p)
  }

  ghost predicate WellFormed(t: Tree) {
    && t.nextId > 0
    && (forall x: nat :: NodeOk(t, x))
    && (forall p: nat, c: nat :: ChildOk(t, p, c))
    && (forall i, j :: 0 <= i < j < |t.nodes| ==> t.nodes[i].id != t.nodes[j].id)
    && (t.rootId != 0 ==> Get(t.nodes, t.rootId).Some? && Get(t.nodes, t.rootId).value.parent.None?)
  }

  lemma GetAdopted(nodes: seq<Node>, p: nat, id: nat, x: nat)
    requires Get(nodes, p).Some? && Get(nodes, id).None?
    ensures var after := Adopt(nodes, p, id) + [Node(id, Some(p), [])];
      Get(after, x) ==
      (if x == id then Some(Node(id, Some(p), []))
       else if x == p then Some(Get(nodes, p).value.(children := Get(nodes, p).value.children + [id]))
       else Get(nodes, x))
  {
    var i := Position(nodes, p);
    var n := nodes[i].(children := nodes[i].children + [id]);
    GetUpdate(nodes, i, n, x);
    GetAppend(Adopt(nodes, p, id), Node(id, Some(p), []), x);
  }

  lemma AdoptKeepsWellFormed(t: Tree, p: nat)
    requires WellFormed(t) && Get(t.nodes, p).Some?
    ensures WellFormed(Tree(Adopt(t.nodes, p, t.nextId) + [Node(t.nextId, Some(p), [])], t.nextId + 1, t.rootId))
  {
    hide Get, Position, NoRepeats;
    var id := t.nextId;
    assert NodeOk(t, id) && NodeOk(t, p);
    var t' := Tree(Adopt(t.nodes, p, id) + [Node(id, Some(p), [])], id + 1, t.rootId);
    forall x: nat
      ensures NodeOk(t', x)
    {
      assert NodeOk(t, x);
      assert forall c :: ChildOk(t, p, c);
      GetAdopted(t.nodes, p, id, x);
      AdoptedNodeOk(t, p, t', x);
    }
    forall q: nat, c: nat
      ensures ChildOk(t', q, c)
    {
      assert ChildOk(t, q, c) && NodeOk(t, q);
      GetAdopted(t.nodes, p, id, q);
      GetAdopted(t.nodes, p, id, c);
    }
    GetAdopted(t.nodes, p, id, t.rootId);
    AdoptKeepsIds(t.nodes, p, id);
  }

  lemma AdoptedNodeOk(t: Tree, p: nat, t': Tree, x: nat)
    requires Get(t.nodes, p).Some? && Get(t.nodes, t.nextId).None? && NodeOk(t, x) && NodeOk(t, p)
    requires forall c: nat :: ChildOk(t, p, c)
    requires t' == Tree(Adopt(t.nodes, p, t.nextId) + [Node(t.nextId, Some(p), [])], t.nextId + 1, t.rootId)
    ensures NodeOk(t', x)
  {
    hide Get, Position, Adopt;
    GetAdopted(t.nodes, p, t.nextId, x);
    GetAdopted(t.nodes, p, t.nextId, p);
    if x == p {
      assert ChildOk(t, p, t.nextId);
      NoRepeatsConcat(Get(t.nodes, p).value.children, [t.nextId]);
    }
    if Get(t'.nodes, x).Some? && Get(t'.nodes, x).value.parent.Some? {
      GetAdopted(t.nodes, p, t.nextId, Get(t'.nodes, x).value.parent.value);
    }
  }

  lemma AdoptKeepsIds(nodes: seq<Node>, p: nat, id: nat)
    requires Get(nodes, p).Some? && Get(nodes, id).None?
    requires forall i, j :: 0 <= i < j < |nodes| ==> nodes[i].id != nodes[j].id
    ensures var after := Adopt(nodes, p, id) + [Node(id, Some(p), [])];
      forall i, j :: 0 <= i < j < |after| ==> after[i].id != after[j].id
  {
    assert forall i :: 0 <= i < |nodes| ==> Adopt(nodes, p, id)[i].id == nodes[i].id;
  }

  /** A node that nobody adopts. */
  lemma OrphanKeepsWellFormed(t: Tree, root: nat)
    requires WellFormed(t) && (root == t.nextId || root == t.rootId)
    ensures WellFormed(Tree(t.nodes + [Node(t.nextId, None, [])], t.nextId + 1, root))
  {
    hide Get, Position;
    var id := t.nextId;
    assert NodeOk(t, id);
    var t' := Tree(t.nodes + [Node(id, None, [])], id + 1, root);
    forall x: nat
      ensures NodeOk(t', x)
    {
      assert NodeOk(t, x);
      GetAppend(t.nodes, Node(id, None, []), x);
      if Get(t.nodes, x).Some? && Get(t.nodes, x).value.parent.Some? {
        GetAppend(t.nodes, Node(id, None, []), Get(t.nodes, x).value.parent.value);
      }
    }
    forall p: nat, c: nat
      ensures ChildOk(t', p, c)
    {
      assert ChildOk(t, p, c);
      GetAppend(t.nodes, Node(id, None, []), p);
      GetAppend(t.nodes, Node(id, None, []), c);
    }
    GetAppend(t.nodes, Node(id, None, []), root);
    NewIdDiffers(t.nodes, id);
  }

  lemma NewIdDiffers(nodes: seq<Node>, id: nat)
    requires Get(nodes, id).None?
    ensures forall i :: 0 <= i < |nodes| ==> nodes[i].id != id
  {
  }

  lemma SkippedIdKeepsWellFormed(t: Tree)
    requires WellFormed(t)
    ensures WellFormed(t.(nextId := t.nextId + 1))
  {
    hide Get, Position, NoRepeats;
    var t' := t.(nextId := t.nextId + 1);
    forall x: nat
      ensures NodeOk(t', x)
    {
      assert NodeOk(t, x);
    }
    forall p: nat, c: nat
      ensures ChildOk(t', p, c)
    {
      assert ChildOk(t, p, c);
    }
  }

  lemma StepKeepsWellFormed(t: Tree, op: Op)
    requires WellFormed(t)
    ensures WellFormed(Step(t, op))
  {
    hide WellFormed, Get, Position, Adopt;
    match op
    case Init =>
      OrphanKeepsWellFormed(t, t.nextId);
    case Create(Some(p)) =>
      if Get(t.nodes, p).Some? { AdoptKeepsWellFormed(t, p); } else { SkippedIdKeepsWellFormed(t); }
    case Create(None) =>
      if t.rootId != 0 && Get(t.nodes, t.rootId).Some? { AdoptKeepsWellFormed(t, t.rootId); }
      else { OrphanKeepsWellFormed(t, t.rootId); }
  }

  /** Every run of initialisations and creations, in any order, leaves a forest whose parents precede their children. */
  lemma {:induction false} RunIsWellFormed(ops: seq<Op>)
    ensures WellFormed(Run(ops))
  {
    hide WellFormed;
    if ops == [] {
      EmptyIsWellFormed();
    } else {
      RunIsWellFormed(ops[..|ops| - 1]);
      StepKeepsWellFormed(Run(ops[..|ops| - 1]), ops[|ops| - 1]);
    }
  }

  lemma EmptyIsWellFormed()
    ensures WellFormed(EMPTY)
  {
  }

  // ----- what the operations do to each node

  /** From nodes to nodes' the new node id was hung under p, as its last child, and nothing else changed. */
  ghost predicate HungUnder(nodes: seq<Node>, nodes': seq<Node>, p: nat, id: nat) {
    && Get(nodes, p).Some? && Get(nodes, id).None? && |nodes'| == |nodes| + 1
    && Get(nodes', id) == Some(Node(id, Some(p), []))
    && Get(nodes', p) == Some(Get(nodes, p).value.(children := Get(nodes, p).value.children + [id]))
    && forall x: nat :: x != id && x != p ==> Get(nodes', x) == Get(nodes, x)
  }

  /** From nodes to nodes' a node without parent was added, and nothing else changed. */
  ghost predicate AddedAlone(nodes: seq<Node>, nodes': seq<Node>, id: nat) {
    && Get(nodes, id).None? && |nodes'| == |nodes| + 1
    && Get(nodes', id) == Some(Node(id, None, []))
    && forall x: nat :: x != id ==> Get(nodes', x) == Get(nodes, x)
  }

  lemma AdoptHangs(nodes: seq<Node>, p: nat, id: nat)
    requires Get(nodes, p).Some? && Get(nodes, id).None?
    ensures HungUnder(nodes, Adopt(nodes, p, id) + [Node(id, Some(p), [])], p, id)
  {
    hide Get, Position;
    forall x: nat
      ensures Get(Adopt(nodes, p, id) + [Node(id, Some(p), [])], x) ==
        (if x == id then Some(Node(id, Some(p), []))
         else if x == p then Some(Get(nodes, p).value.(children := Get(nodes, p).value.children + [id]))
         else Get(nodes, x))
    {
      GetAdopted(nodes, p, id, x);
    }
  }

  lemma AppendAdds(nodes: seq<Node>, id: nat)
    requires Get(nodes, id).None?
    ensures AddedAlone(nodes, nodes + [Node(id, None, [])], id)
  {
    hide Get;
    forall x: nat
      ensures Get(nodes + [Node(id, None, [])], x) ==
        (if Get(nodes, x).Some? then Get(nodes, x) else if id == x then Some(Node(id, None, [])) else None)
    {
      GetAppend(nodes, Node(id, None, []), x);
    }
  }

  /** Initialising adds a parentless node and makes it the root. */
  lemma InitLaw(t: Tree)
    requires WellFormed(t)
    ensures var t' := Step(t, Init);
      AddedAlone(t.nodes, t'.nodes, t.nextId) && t'.rootId == t.nextId && t'.nextId == t.nextId + 1
  {
    hide WellFormed;
    FreshId(t);
    AppendAdds(t.nodes, t.nextId);
  }

  /**
    Creating hangs the new node under the parent asked for, or under the root if none is asked for; it fails for an
    unknown parent, and without any root the node stays alone.
  */
  lemma CreateLaw(t: Tree, parent: Option<nat>)
    requires WellFormed(t)
    ensures var t' := Step(t, Create(parent));
      && t'.nextId == t.nextId + 1 && t'.rootId == t.rootId
      && (parent.Some? && Get(t.nodes, parent.value).None? ==> t'.nodes == t.nodes)
      && (parent.Some? && Get(t.nodes, parent.value).Some? ==>
            HungUnder(t.nodes, t'.nodes, parent.value, t.nextId))
      && (parent.None? && t.rootId != 0 ==> HungUnder(t.nodes, t'.nodes, t.rootId, t.nextId))
      && (parent.None? && t.rootId == 0 ==> AddedAlone(t.nodes, t'.nodes, t.nextId))
  {
    hide WellFormed, Get, Position, Adopt;
    FreshId(t);
    match parent
    case Some(p) =>
      if Get(t.nodes, p).Some? { AdoptHangs(t.nodes, p, t.nextId); }
    case None =>
      if t.rootId != 0 {
        RootFound(t);
        AdoptHangs(t.nodes, t.rootId, t.nextId);
      } else {
        AppendAdds(t.nodes, t.nextId);
      }
  }

  // ----- the walk

  /** walk_children: the ids in the order the callback sees them. */
  function WalkNode(t: Tree, id: nat): seq<nat>
    requires WellFormed(t)
    decreases t.nextId - id, 1, 0
  {
    if Get(t.nodes, id).None? then []
    else
      ChildrenOf(t, id);
      [id] + WalkList(t, Get(t.nodes, id).value.children, id)
  }

  predicate AllAbove(ids: seq<nat>, above: nat) { forall i :: 0 <= i < |ids| ==> above < ids[i] }

  function WalkList(t: Tree, ids: seq<nat>, above: nat): seq<nat>
    requires WellFormed(t) && above < t.nextId && AllAbove(ids, above)
    decreases t.nextId - above, 0, |ids|
  {
    if ids == [] then [] else WalkNode(t, ids[0]) + WalkList(t, ids[1..], above)
  }

  /** devtree_walk. */
  function WalkTree(t: Tree): seq<nat>
    requires WellFormed(t)
  {
    if t.rootId == 0 then [] else WalkNode(t, t.rootId)
  }

  // ----- descendants

  /** Following parent fields from x leads to r. */
  ghost predicate Under(t: Tree, r: nat, x: nat)
    requires WellFormed(t)
    decreases x
  {
    && Get(t.nodes, x).Some?
    && (x == r || (&& Get(t.nodes, x).value.parent.Some?
                   && (ParentBelow(t, x); Under(t, r, Get(t.nodes, x).value.parent.value))))
  }

  lemma ParentBelow(t: Tree, x: nat)
    requires WellFormed(t) && Get(t.nodes, x).Some? && Get(t.nodes, x).value.parent.Some?
    ensures var p := Get(t.nodes, x).value.parent.value; p < x && IsChild(t, p, x) && Get(t.nodes, p).Some?
  {
    hide Get, NoRepeats;
    assert NodeOk(t, x);
    assert ChildOk(t, Get(t.nodes, x).value.parent.value, x);
  }

  lemma ChildLinks(t: Tree, p: nat, c: nat)
    requires WellFormed(t) && IsChild(t, p, c)
    ensures p < c < t.nextId && Get(t.nodes, c).Some? && Get(t.nodes, c).value.parent == Some(p)
  {
    hide Get, NoRepeats;
    assert ChildOk(t, p, c) && NodeOk(t, c);
  }

  lemma {:induction false} UnderAbove(t: Tree, r: nat, x: nat)
    requires WellFormed(t) && Under(t, r, x)
    ensures r <= x && Get(t.nodes, r).Some?
    decreases x
  {
    hide WellFormed, Get;
    if x != r {
      ParentBelow(t, x);
      UnderAbove(t, r, Get(t.nodes, x).value.parent.value);
    }
  }

  /** The chain from x to r passes through a child of r. */
  lemma {:induction false} UnderViaChild(t: Tree, r: nat, x: nat) returns (c: nat)
    requires WellFormed(t) && Under(t, r, x) && x != r
    ensures IsChild(t, r, c) && Under(t, c, x)
    decreases x
  {
    hide WellFormed, Get, IsChild;
    ParentBelow(t, x);
    var p := Get(t.nodes, x).value.parent.value;
    if p == r { c := x; } else { c := UnderViaChild(t, r, p); }
  }

  lemma {:induction false} ChildUnder(t: Tree, r: nat, c: nat, x: nat)
    requires WellFormed(t) && IsChild(t, r, c) && Under(t, c, x)
    ensures Under(t, r, x)
    decreases x
  {
    hide WellFormed, Get, IsChild;
    ChildLinks(t, r, c);
    if x == c {
      ParentBelow(t, c);
    } else {
      ParentBelow(t, x);
      ChildUnder(t, r, c, Get(t.nodes, x).value.parent.value);
    }
  }

  /** Subtrees of two siblings share no node. */
  lemma {:induction false} SiblingsApart(t: Tree, r: nat, c: nat, d: nat, x: nat)
    requires WellFormed(t) && IsChild(t, r, c) && IsChild(t, r, d) && Under(t, c, x) && Under(t, d, x)
    ensures c == d
    decreases x
  {
    hide WellFormed, Get, IsChild;
    ChildLinks(t, r, c);
    ChildLinks(t, r, d);
    if c != d {
      if x == c {
        UnderAbove(t, d, r);
      } else if x == d {
        UnderAbove(t, c, r);
      } else {
        ParentBelow(t, x);
        SiblingsApart(t, r, c, d, Get(t.nodes, x).value.parent.value);
      }
    }
  }

  // ----- what the walk visits

  /** Each entry is one of the tops or comes after its parent. */
  ghost predicate ParentFirst(t: Tree, w: seq<nat>, tops: seq<nat>) {
    forall j :: 0 <= j < |w| ==> w[j] in tops || After(t, w, j)
  }

  ghost predicate After(t: Tree, w: seq<nat>, j: nat)
    requires j < |w|
  {
    exists i :: 0 <= i < j && IsChild(t, w[i], w[j])
  }

  ghost predicate UnderOne(t: Tree, ids: seq<nat>, x: nat)
    requires WellFormed(t)
  {
    exists c :: c in ids && Under(t, c, x)
  }

  lemma {:induction false} WalkNodeVisits(t: Tree, id: nat)
    requires WellFormed(t)
    ensures forall x :: x in WalkNode(t, id) <==> Under(t, id, x)
    ensures NoRepeats(WalkNode(t, id))
    ensures ParentFirst(t, WalkNode(t, id), [id])
    decreases t.nextId - id, 1, 0
  {
    hide WellFormed, Get, IsChild, Under, NoRepeats, ParentFirst;
    if Get(t.nodes, id).None? {
      NothingUnder(t, id);
    } else {
      var ids := Get(t.nodes, id).value.children;
      ChildrenOf(t, id);
      WalkListVisits(t, ids, id);
      WalkNodeJoin(t, id, ids, WalkList(t, ids, id));
    }
  }

  lemma NothingUnder(t: Tree, id: nat)
    requires WellFormed(t) && Get(t.nodes, id).None?
    ensures forall x :: !Under(t, id, x)
    ensures NoRepeats([]) && ParentFirst(t, [], [id])
  {
    hide WellFormed, Get, IsChild;
    forall x
      ensures !Under(t, id, x)
    {
      if Under(t, id, x) { UnderAbove(t, id, x); }
    }
  }

  lemma ChildrenOf(t: Tree, id: nat)
    requires WellFormed(t) && Get(t.nodes, id).Some?
    ensures var ids := Get(t.nodes, id).value.children;
      id < t.nextId && NoRepeats(ids) && AllAbove(ids, id) && forall c :: c in ids ==> id < c && IsChild(t, id, c)
  {
    hide Get, NoRepeats;
    assert NodeOk(t, id);
    var ids := Get(t.nodes, id).value.children;
    assert forall i :: 0 <= i < |ids| ==> ids[i] in ids;
    forall c | c in Get(t.nodes, id).value.children
      ensures id < c && IsChild(t, id, c)
    {
      assert ChildOk(t, id, c);
    }
  }

  lemma WalkNodeJoin(t: Tree, id: nat, ids: seq<nat>, w: seq<nat>)
    requires WellFormed(t) && Get(t.nodes, id).Some? && ids == Get(t.nodes, id).value.children
    requires forall c :: c in ids ==> id < c && IsChild(t, id, c)
    requires forall x :: x in w <==> UnderOne(t, ids, x)
    requires NoRepeats(w) && ParentFirst(t, w, ids)
    ensures forall x :: x in [id] + w <==> Under(t, id, x)
    ensures NoRepeats([id] + w) && ParentFirst(t, [id] + w, [id])
  {
    hide WellFormed, Get, NoRepeats, ParentFirst;
    forall x
      ensures x in [id] + w <==> Under(t, id, x)
    {
      NodeOrBelow(t, id, ids, x);
    }
    IdNotBelow(t, id, ids);
    SingleNoRepeats(id);
    NoRepeatsConcat([id], w);
    ParentFirstUnder(t, id, ids, w);
  }

  lemma SingleNoRepeats(id: nat)
    ensures NoRepeats([id])
  {
  }

  lemma IdNotBelow(t: Tree, id: nat, ids: seq<nat>)
    requires WellFormed(t) && forall c :: c in ids ==> id < c
    ensures !UnderOne(t, ids, id)
  {
    hide WellFormed, Under;
    if UnderOne(t, ids, id) {
      var c :| c in ids && Under(t, c, id);
      UnderAbove(t, c, id);
    }
  }

  lemma NodeOrBelow(t: Tree, id: nat, ids: seq<nat>, x: nat)
    requires WellFormed(t) && Get(t.nodes, id).Some? && ids == Get(t.nodes, id).value.children
    requires forall c :: c in ids ==> IsChild(t, id, c)
    ensures Under(t, id, x) <==> x == id || UnderOne(t, ids, x)
  {
    hide WellFormed, Get;
    if UnderOne(t, ids, x) {
      var c :| c in ids && Under(t, c, x);
      ChildUnder(t, id, c, x);
    }
    if Under(t, id, x) && x != id {
      var c := UnderViaChild(t, id, x);
      assert c in ids;
    }
  }

  lemma ParentFirstUnder(t: Tree, id: nat, ids: seq<nat>, w: seq<nat>)
    requires ParentFirst(t, w, ids) && forall c :: c in ids ==> IsChild(t, id, c)
    ensures ParentFirst(t, [id] + w, [id])
  {
    hide IsChild;
    var all := [id] + w;
    forall j | 0 <= j < |all|
      ensures all[j] in [id] || After(t, all, j)
    {
      if j > 0 {
        assert all[j] == w[j - 1];
        if w[j - 1] in ids {
          assert IsChild(t, all[0], all[j]);
        } else {
          var i :| 0 <= i < j - 1 && IsChild(t, w[i], w[j - 1]);
          assert all[i + 1] == w[i];
        }
      }
    }
  }

  lemma {:induction false} WalkListVisits(t: Tree, ids: seq<nat>, above: nat)
    requires WellFormed(t) && above < t.nextId && NoRepeats(ids) && AllAbove(ids, above)
    requires forall c :: c in ids ==> IsChild(t, above, c)
    ensures forall x :: x in WalkList(t, ids, above) <==> UnderOne(t, ids, x)
    ensures NoRepeats(WalkList(t, ids, above))
    ensures ParentFirst(t, WalkList(t, ids, above), ids)
    decreases t.nextId - above, 0, |ids|
  {
    hide WellFormed, Get, IsChild, Under, NoRepeats, ParentFirst, UnderOne, WalkNode;
    if ids == [] {
      NothingListed(t);
    } else {
      NoRepeatsSplit(ids);
      assert ids == [ids[0]] + ids[1..];
      WalkNodeVisits(t, ids[0]);
      WalkListVisits(t, ids[1..], above);
      WalkListJoin(t, ids, above, WalkNode(t, ids[0]), WalkList(t, ids[1..], above));
    }
  }

  lemma NothingListed(t: Tree)
    requires WellFormed(t)
    ensures NoRepeats([]) && ParentFirst(t, [], [])
    ensures forall x :: !UnderOne(t, [], x)
  {
  }

  lemma NoRepeatsSplit(ids: seq<nat>)
    requires NoRepeats(ids) && ids != []
    ensures NoRepeats(ids[1..]) && ids[0] !in ids[1..]
  {
  }

  lemma WalkListJoin(t: Tree, ids: seq<nat>, above: nat, v: seq<nat>, w: seq<nat>)
    requires WellFormed(t) && ids != [] && ids[0] !in ids[1..]
    requires forall c :: c in ids ==> IsChild(t, above, c)
    requires forall x :: x in v <==> Under(t, ids[0], x)
    requires forall x :: x in w <==> UnderOne(t, ids[1..], x)
    requires NoRepeats(v) && NoRepeats(w) && ParentFirst(t, v, [ids[0]]) && ParentFirst(t, w, ids[1..])
    ensures forall x :: x in v + w <==> UnderOne(t, ids, x)
    ensures NoRepeats(v + w) && ParentFirst(t, v + w, ids)
  {
    hide WellFormed, Get, IsChild, Under, NoRepeats, ParentFirst;
    assert ids == [ids[0]] + ids[1..];
    forall x | x in v
      ensures x !in w
    {
      if x in w {
        var d :| d in ids[1..] && Under(t, d, x);
        SiblingsApart(t, above, ids[0], d, x);
      }
    }
    NoRepeatsConcat(v, w);
    ParentFirstConcat(t, v, w, ids);
  }

  lemma ParentFirstConcat(t: Tree, v: seq<nat>, w: seq<nat>, ids: seq<nat>)
    requires ids != [] && ParentFirst(t, v, [ids[0]]) && ParentFirst(t, w, ids[1..])
    ensures ParentFirst(t, v + w, ids)
  {
    hide IsChild;
    var all := v + w;
    forall j | 0 <= j < |all|
      ensures all[j] in ids || After(t, all, j)
    {
      if j < |v| {
        if v[j] != ids[0] {
          var i :| 0 <= i < j && IsChild(t, v[i], v[j]);
          assert all[i] == v[i] && all[j] == v[j];
        }
      } else if w[j - |v|] !in ids[1..] {
        var k := j - |v|;
        var i :| 0 <= i < k && IsChild(t, w[i], w[k]);
        assert all[i + |v|] == w[i] && all[j] == w[k];
      }
    }
  }

  // ----- the order of the walk

  /** x comes before y. */
  ghost predicate Precedes(w: seq<nat>, x: nat, y: nat) {
    exists a, b :: 0 <= a < b < |w| && w[a] == x && w[b] == y
  }

  lemma PrecedesInside(u: seq<nat>, v: seq<nat>, w: seq<nat>, x: nat, y: nat)
    requires Precedes(v, x, y)
    ensures Precedes(u + v + w, x, y)
  {
    var a, b :| 0 <= a < b < |v| && v[a] == x && v[b] == y;
    var all := u + v + w;
    assert all[|u| + a] == x && all[|u| + b] == y;
  }

  lemma PrecedesAcross(v: seq<nat>, w: seq<nat>, x: nat, y: nat)
    requires x in v && y in w
    ensures Precedes(v + w, x, y)
  {
    var a :| 0 <= a < |v| && v[a] == x;
    var b :| 0 <= b < |w| && w[b] == y;
    assert (v + w)[a] == x && (v + w)[|v| + b] == y;
  }

  /** The walk of a list is made of the walks of its parts. */
  lemma {:induction false} WalkListSplit(t: Tree, ids: seq<nat>, above: nat, k: nat)
    requires WellFormed(t) && above < t.nextId && AllAbove(ids, above) && k <= |ids|
    ensures WalkList(t, ids, above) == WalkList(t, ids[..k], above) + WalkList(t, ids[k..], above)
    decreases k
  {
    hide WellFormed, WalkNode;
    if k == 0 {
      assert ids[0..] == ids;
    } else {
      var rest := ids[1..];
      WalkListSplit(t, rest, above, k - 1);
      assert ids[..k][0] == ids[0] && ids[..k][1..] == rest[..k - 1] && ids[k..] == rest[k - 1..];
    }
  }

  /** What the walk of the k-th id visits is in the walk of the list. */
  lemma WalkListPart(t: Tree, ids: seq<nat>, above: nat, k: nat)
    requires WellFormed(t) && above < t.nextId && AllAbove(ids, above) && k < |ids|
    ensures WalkList(t, ids, above)
      == WalkList(t, ids[..k], above) + WalkNode(t, ids[k]) + WalkList(t, ids[k + 1..], above)
  {
    hide WellFormed, WalkNode;
    WalkListSplit(t, ids, above, k);
    assert ids[k..][0] == ids[k] && ids[k..][1..] == ids[k + 1..];
  }

  /** Subtrees are visited one after the other, in the order of the child list. */
  lemma SiblingsInOrder(t: Tree, p: nat, i: nat, j: nat, x: nat, y: nat)
    requires WellFormed(t) && Get(t.nodes, p).Some? && i < j < |Get(t.nodes, p).value.children|
    requires Under(t, Get(t.nodes, p).value.children[i], x) && Under(t, Get(t.nodes, p).value.children[j], y)
    ensures Precedes(WalkNode(t, p), x, y)
  {
    hide WellFormed, Get, Under, Precedes;
    var ids := Get(t.nodes, p).value.children;
    ChildrenOf(t, p);
    WalkNodeVisits(t, ids[i]);
    WalkNodeVisits(t, ids[j]);
    WalkListSplit(t, ids, p, j);
    WalkListPart(t, ids[..j], p, i);
    WalkListPart(t, ids, p, j);
    var v, w := WalkList(t, ids[..j], p), WalkList(t, ids[j..], p);
    assert ids[..j][i] == ids[i] && ids[j..][0] == ids[j];
    assert x in v && y in w;
    PrecedesAcross(v, w, x, y);
    PrecedesInside([p], v + w, [], x, y);
    assert [p] + (v + w) + [] == WalkNode(t, p);
  }

  /** The walk of a descendant is a piece of the walk. */
  lemma {:induction false} WalkOfDescendant(t: Tree, r: nat, p: nat) returns (u: seq<nat>, w: seq<nat>)
    requires WellFormed(t) && Under(t, r, p)
    ensures WalkNode(t, r) == u + WalkNode(t, p) + w
    decreases t.nextId - r
  {
    hide WellFormed, Get, IsChild, Under, WalkList, WalkNode;
    UnderAbove(t, r, p);
    if r == p {
      u, w := [], [];
      assert [] + WalkNode(t, p) + [] == WalkNode(t, p);
    } else {
      var c := UnderViaChild(t, r, p);
      ChildLinks(t, r, c);
      ChildrenOf(t, r);
      var ids := Get(t.nodes, r).value.children;
      ListedChild(t, r, c);
      var k :| 0 <= k < |ids| && ids[k] == c;
      var u', w' := WalkOfDescendant(t, c, p);
      WalkListPart(t, ids, r, k);
      u, w := [r] + WalkList(t, ids[..k], r) + u', w' + WalkList(t, ids[k + 1..], r);
      WalkNodeIs(t, r);
      Regroup([r], WalkList(t, ids[..k], r), u', WalkNode(t, p), w', WalkList(t, ids[k + 1..], r));
    }
  }

  lemma WalkNodeIs(t: Tree, r: nat)
    requires WellFormed(t) && Get(t.nodes, r).Some?
    ensures var ids := Get(t.nodes, r).value.children;
      r < t.nextId && AllAbove(ids, r) && WalkNode(t, r) == [r] + WalkList(t, ids, r)
  {
    hide WellFormed, Get, WalkList;
    ChildrenOf(t, r);
  }

  lemma Regroup(a: seq<nat>, b: seq<nat>, c: seq<nat>, d: seq<nat>, e: seq<nat>, f: seq<nat>)
    ensures a + (b + (c + d + e) + f) == (a + b + c) + d + (e + f)
  {
  }

  lemma ListedChild(t: Tree, p: nat, c: nat)
    requires IsChild(t, p, c)
    ensures Get(t.nodes, p).Some? && c in Get(t.nodes, p).value.children
  {
  }

  /**
    Together with parents coming first this fixes the walk: wherever two siblings hang in the tree, everything under
    the one created first is visited before everything under the other.
  */
  lemma WalkIsPreOrder(t: Tree, p: nat, i: nat, j: nat, x: nat, y: nat)
    requires WellFormed(t) && t.rootId != 0 && Under(t, t.rootId, p)
    requires Get(t.nodes, p).Some? && i < j < |Get(t.nodes, p).value.children|
    requires Under(t, Get(t.nodes, p).value.children[i], x) && Under(t, Get(t.nodes, p).value.children[j], y)
    ensures Precedes(WalkTree(t), x, y)
  {
    hide WellFormed, Get, Under, Precedes, WalkNode;
    SiblingsInOrder(t, p, i, j, x, y);
    var u, w := WalkOfDescendant(t, t.rootId, p);
    PrecedesInside(u, WalkNode(t, p), w, x, y);
  }

  // ----- when the walk sees the whole tree

  /** The root is the only node without a parent. */
  ghost predicate OnlyRoot(t: Tree) {
    forall n :: n in t.nodes && n.parent.None? ==> n.id == t.rootId
  }

  ghost predicate VisitsAll(t: Tree)
    requires WellFormed(t)
  {
    forall n :: n in t.nodes ==> n.id in WalkTree(t)
  }

  lemma NodeIsGet(t: Tree, n: Node)
    requires WellFormed(t) && n in t.nodes
    ensures Get(t.nodes, n.id) == Some(n) && n.id > 0
  {
    hide NoRepeats;
    assert NodeOk(t, n.id);
    var i :| 0 <= i < |t.nodes| && t.nodes[i] == n;
    PositionUnique(t.nodes, n.id, i);
  }

  lemma {:induction false} OnlyRootReaches(t: Tree, x: nat)
    requires WellFormed(t) && OnlyRoot(t) && Get(t.nodes, x).Some?
    ensures t.rootId != 0 && Under(t, t.rootId, x)
    decreases x
  {
    hide WellFormed, Position;
    var n := Get(t.nodes, x).value;
    NodeIsGet(t, n);
    if n.parent.Some? {
      ParentBelow(t, x);
      OnlyRootReaches(t, n.parent.value);
    }
  }

  /** The walk is complete exactly when the root is the only parentless node. */
  lemma VisitsAllIff(t: Tree)
    requires WellFormed(t)
    ensures VisitsAll(t) <==> OnlyRoot(t)
  {
    hide WellFormed, Get, WalkNode;
    WalkNodeVisits(t, t.rootId);
    forall n | n in t.nodes
      ensures Get(t.nodes, n.id) == Some(n) && n.id > 0
      ensures n.parent.None? && n.id in WalkTree(t) ==> n.id == t.rootId
      ensures OnlyRoot(t) ==> n.id in WalkTree(t)
    {
      NodeIsGet(t, n);
      if OnlyRoot(t) { OnlyRootReaches(t, n.id); }
    }
  }

  /** At most one initialisation, and none without a parent created before it. */
  ghost predicate Orderly(ops: seq<Op>) {
    && (forall i, j :: 0 <= i < j < |ops| && ops[i].Init? ==> !ops[j].Init?)
    && (forall i :: 0 <= i < |ops| && ops[i] == Create(None) ==> Initialised(ops[..i]))
  }

  ghost predicate Initialised(ops: seq<Op>) { Init in ops }

  lemma OrderlyStep(ops: seq<Op>, op: Op)
    ensures Orderly(ops + [op]) <==>
      Orderly(ops) && (op.Init? ==> !Initialised(ops)) && (op == Create(None) ==> Initialised(ops))
  {
    var all := ops + [op];
    assert forall i :: 0 <= i < |ops| ==> all[i] == ops[i] && all[..i] == ops[..i];
    assert all[..|ops|] == ops && all[|ops|] == op;
    if Orderly(all) {
      forall i | 0 <= i < |ops| && ops[i] == Create(None)
        ensures Initialised(ops[..i])
      {
        assert all[i] == Create(None);
      }
    }
  }

  lemma {:induction false} RootIffInitialised(ops: seq<Op>)
    ensures Run(ops).rootId != 0 <==> Initialised(ops)
  {
    if ops != [] {
      RootIffInitialised(ops[..|ops| - 1]);
      RunIsWellFormed(ops[..|ops| - 1]);
      assert ops == ops[..|ops| - 1] + [ops[|ops| - 1]];
    }
  }

  lemma NoRootNoNodes(t: Tree)
    requires WellFormed(t) && t.rootId == 0 && OnlyRoot(t)
    ensures t.nodes == []
  {
    hide WellFormed, Position;
    if t.nodes != [] {
      NodeIsGet(t, t.nodes[0]);
      OnlyRootReaches(t, t.nodes[0].id);
    }
  }

  lemma OnlyRootStep(t: Tree, op: Op)
    requires WellFormed(t)
    ensures OnlyRoot(Step(t, op)) <==>
      OnlyRoot(t) && (op.Init? ==> t.rootId == 0) && (op == Create(None) ==> t.rootId != 0)
  {
    hide WellFormed, Position;
    match op
    case Init =>
      AppendRoot(t, t.nextId);
    case Create(Some(p)) =>
      if Get(t.nodes, p).Some? { AdoptOnlyRoot(t, p); }
    case Create(None) =>
      if t.rootId != 0 { RootFound(t); AdoptOnlyRoot(t, t.rootId); } else { AppendRoot(t, 0); }
  }

  lemma RootFound(t: Tree)
    requires WellFormed(t) && t.rootId != 0
    ensures Get(t.nodes, t.rootId).Some?
  {
  }

  lemma RootExists(t: Tree)
    requires WellFormed(t)
    ensures t.rootId < t.nextId && t.nextId > 0
    ensures t.rootId != 0 ==> exists n :: n in t.nodes && n.id == t.rootId && n.parent.None?
    ensures forall n :: n in t.nodes ==> n.id < t.nextId
  {
    hide NoRepeats;
    assert NodeOk(t, t.rootId);
    if t.rootId != 0 { assert t.nodes[Position(t.nodes, t.rootId)] in t.nodes; }
    forall n | n in t.nodes
      ensures n.id < t.nextId
    {
      assert NodeOk(t, n.id);
    }
  }

  lemma AppendRoot(t: Tree, root: nat)
    requires WellFormed(t) && (root == t.nextId || (root == 0 && t.rootId == 0))
    ensures var t' := Tree(t.nodes + [Node(t.nextId, None, [])], t.nextId + 1, root);
      OnlyRoot(t') <==> OnlyRoot(t) && t.rootId == 0 && root != 0
  {
    hide WellFormed, Get, Position;
    RootExists(t);
    var n := Node(t.nextId, None, []);
    var t' := Tree(t.nodes + [n], t.nextId + 1, root);
    assert n in t'.nodes;
    if OnlyRoot(t') {
      assert forall m :: m in t.nodes ==> m in t'.nodes;
    }
    if OnlyRoot(t) && t.rootId == 0 && root != 0 { NoRootNoNodes(t); }
  }

  lemma AdoptOnlyRoot(t: Tree, p: nat)
    requires Get(t.nodes, p).Some?
    ensures var t' := Tree(Adopt(t.nodes, p, t.nextId) + [Node(t.nextId, Some(p), [])], t.nextId + 1, t.rootId);
      OnlyRoot(t') <==> OnlyRoot(t)
  {
    var i := Position(t.nodes, p);
    var m := t.nodes[i].(children := t.nodes[i].children + [t.nextId]);
    var after := Adopt(t.nodes, p, t.nextId) + [Node(t.nextId, Some(p), [])];
    assert after[i] == m && forall j :: 0 <= j < |t.nodes| && j != i ==> after[j] == t.nodes[j];
    assert forall j :: 0 <= j < |t.nodes| ==> after[j].id == t.nodes[j].id && after[j].parent == t.nodes[j].parent;
    assert forall j :: 0 <= j < |t.nodes| ==> after[j] in after;
  }

  /** Over every run the walk visits each node exactly once if and only if the run is orderly. */
  lemma {:induction false} RunWalksAllIff(ops: seq<Op>)
    ensures WellFormed(Run(ops)) && (VisitsAll(Run(ops)) <==> Orderly(ops))
    ensures NoRepeats(WalkTree(Run(ops)))
  {
    hide WellFormed, VisitsAll, Orderly, WalkNode, NoRepeats;
    RunIsWellFormed(ops);
    var t := Run(ops);
    VisitsAllIff(t);
    WalkNodeVisits(t, t.rootId);
    OrderlyRun(ops);
    NothingListed(t);
  }

  /** A node created before the tree has a root is never visited. */
  lemma OrphanExample()
    ensures var t := Run([Create(None), Init]); WellFormed(t) && !VisitsAll(t)
  {
    hide WellFormed, VisitsAll, Run;
    var ops := [Create(None), Init];
    assert ops[0] == Create(None) && ops[..0] == [];
    RunWalksAllIff(ops);
  }

  lemma {:induction false} OrderlyRun(ops: seq<Op>)
    ensures OnlyRoot(Run(ops)) <==> Orderly(ops)
  {
    hide WellFormed, Orderly, OnlyRoot, Step;
    if ops == [] {
      EmptyOrderly();
    } else {
      var rest, op := ops[..|ops| - 1], ops[|ops| - 1];
      assert ops == rest + [op];
      OrderlyRun(rest);
      OrderlyStep(rest, op);
      RunIsWellFormed(rest);
      OnlyRootStep(Run(rest), op);
      RootIffInitialised(rest);
    }
  }

  lemma EmptyOrderly()
    ensures OnlyRoot(EMPTY) && Orderly([])
  {
  }

  // ----- the kernel's tree

  class DeviceTree {
    var nodes: seq<Node>
    var nextId: nat
    var rootId: nat

    ghost function View(): Tree
      reads this
    {
      Tree(nodes, nextId, rootId)
    }

    constructor ()
      ensures View() == EMPTY && WellFormed(View())
    {
      nodes, nextId, rootId := [], 1, 0;
      new;
      EmptyIsWellFormed();
    }

    /** devtree_init. */
    method Init()
      requires WellFormed(View())
      modifies this
      ensures View() == Step(old(View()), Op.Init) && WellFormed(View())
      ensures AddedAlone(old(nodes), nodes, old(nextId)) && rootId == old(nextId)
    {
      hide WellFormed, AddedAlone;
      StepKeepsWellFormed(View(), Op.Init);
      InitLaw(View());
      var id := nextId;
      nextId := nextId + 1;
      nodes := nodes + [Node(id, None, [])];
      rootId := id;
    }

    method FindIndex(id: nat) returns (i: nat)
      ensures i == Position(nodes, id)
    {
      i := 0;
      while i < |nodes| && nodes[i].id != id
        invariant 0 <= i <= |nodes|
        invariant forall j :: 0 <= j < i ==> nodes[j].id != id
      {
        i := i + 1;
      }
      if i < |nodes| { PositionUnique(nodes, id, i); }
    }

    /** devtree_create_node. */
    method CreateNode(parent: Option<nat>) returns (r: Option<nat>)
      requires WellFormed(View())
      modifies this
      ensures View() == Step(old(View()), Create(parent)) && WellFormed(View())
      ensures r == (if parent.Some? && Get(old(nodes), parent.value).None? then None else Some(old(nextId)))
      ensures r.None? ==> nodes == old(nodes)
      ensures r.Some? && parent.Some? ==> HungUnder(old(nodes), nodes, parent.value, r.value)
      ensures r.Some? && parent.None? ==>
        if rootId != 0 then HungUnder(old(nodes), nodes, rootId, r.value) else AddedAlone(old(nodes), nodes, r.value)
    {
      hide WellFormed, Get, Position, HungUnder, AddedAlone;
      StepKeepsWellFormed(View(), Create(parent));
      CreateLaw(View(), parent);
      var id := nextId;
      nextId := nextId + 1;
      var node := Node(id, parent, []);
      match parent {
        case Some(p) =>
          var i := FindIndex(p);
          PositionGet(nodes, p);
          if i < |nodes| {
            nodes := nodes[i := nodes[i].(children := nodes[i].children + [id])];
          } else {
            return None;
          }
        case None =>
          if rootId != 0 {
            var i := FindIndex(rootId);
            PositionGet(nodes, rootId);
            if i < |nodes| {
              nodes := nodes[i := nodes[i].(children := nodes[i].children + [id])];
              node := node.(parent := Some(rootId));
            }
          }
      }
      nodes := nodes + [node];
      r := Some(id);
    }

    /** walk_children: visits a node, then its children one by one. */
    method WalkChildren(id: nat, seen: seq<nat>) returns (seen': seq<nat>)
      requires WellFormed(View())
      ensures seen' == seen + WalkNode(View(), id)
      decreases nextId - id
    {
      hide WellFormed, Get, Position;
      var i := FindIndex(id);
      PositionGet(nodes, id);
      seen' := seen;
      if i < |nodes| {
        seen' := seen' + [id];
        var ids := nodes[i].children;
        ChildrenOf(View(), id);
        var k := 0;
        while k < |ids|
          invariant 0 <= k <= |ids|
          invariant seen' + WalkList(View(), ids[k..], id) == seen + WalkNode(View(), id)
        {
          assert ids[k] in ids && ids[k..][1..] == ids[k + 1..];
          seen' := WalkChildren(ids[k], seen');
          k := k + 1;
        }
      }
    }

    /** devtree_walk: no node twice, each after its parent; all exactly when the root is the only parentless node. */
    method Walk() returns (seen: seq<nat>)
      requires WellFormed(View())
      ensures seen == WalkTree(View())
      ensures NoRepeats(seen) && ParentFirst(View(), seen, [rootId])
      ensures rootId != 0 ==> forall x :: x in seen <==> Under(View(), rootId, x)
      ensures (forall n :: n in nodes ==> n.id in seen) <==> OnlyRoot(View())
    {
      hide WellFormed, Get, Position, Under, OnlyRoot, WalkNode, NoRepeats, ParentFirst;
      VisitsAllIff(View());
      WalkNodeVisits(View(), rootId);
      NothingWalked(View());
      if rootId == 0 { return []; }
      seen := WalkChildren(rootId, []);
      assert [] + WalkNode(View(), rootId) == WalkNode(View(), rootId);
    }
  }

  lemma NothingWalked(t: Tree)
    ensures NoRepeats([]) && ParentFirst(t, [], [t.rootId])
  {
  }

  lemma PositionGet(nodes: seq<Node>, id: nat)
    ensures Position(nodes, id) < |nodes| <==> Get(nodes, id).Some?
    ensures Get(nodes, id).Some? ==> Get(nodes, id) == Some(nodes[Position(nodes, id)])
  {
  }

  lemma FreshId(t: Tree)
    requires WellFormed(t)
    ensures Get(t.nodes, t.nextId).None?
  {
    assert NodeOk(t, t.nextId);
  }
}
