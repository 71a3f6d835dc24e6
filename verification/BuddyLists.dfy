/**
  Free lists threaded through the free pages themselves.

  A node lives in the first bytes of a free page; `nx[p]` and `pv[p]` are the addresses stored in page p,
  and address 0 ends a list.  The abstract value of a list is the sequence of its pages.
*/
module BuddyLists {
  import opened BuddyBlocks

  /** Address of the i-th page of a list, or the sentinel when there is none. */
  function Addr(s: seq<nat>, i: int): nat {
    if 0 <= i < |s| then s[i] * PAGE_SIZE else 0
  }

  ghost predicate Node(s: seq<nat>, i: int, nx: seq<nat>, pv: seq<nat>)
    requires 0 <= i < |s|
  {
    1 <= s[i] < |nx| == |pv| && nx[s[i]] == Addr(s, i + 1) && pv[s[i]] == Addr(s, i - 1)
  }

  /** `head`, `nx` and `pv` hold the doubly linked list of the pages `s`. */
  ghost predicate Chain(s: seq<nat>, head: nat, nx: seq<nat>, pv: seq<nat>) {
    && head == Addr(s, 0)
    && forall i :: 0 <= i < |s| ==> Node(s, i, nx, pv)
  }

  ghost predicate Distinct(s: seq<nat>) {
    forall i, j :: 0 <= i < j < |s| ==> s[i] != s[j]
  }

  function RemoveAt(s: seq<nat>, k: nat): seq<nat>
    requires k < |s|
  {
    s[..k] + s[k + 1..]
  }

  /** The memory after linking `page` in front of the list `s`. */
  function PushNext(s: seq<nat>, nx: seq<nat>, page: nat): seq<nat>
    requires page < |nx|
  {
    nx[page := Addr(s, 0)]
  }

  function PushPrev(s: seq<nat>, pv: seq<nat>, page: nat): seq<nat>
    requires page < |pv| && (s != [] ==> s[0] < |pv|)
  {
    if s == [] then pv[page := 0] else pv[page := 0][s[0] := page * PAGE_SIZE]
  }

  lemma ChainPush(s: seq<nat>, head: nat, nx: seq<nat>, pv: seq<nat>, page: nat)
    requires Chain(s, head, nx, pv)
    requires Distinct(s)
    requires 1 <= page < |nx| == |pv| && page !in s
    requires s != [] ==> s[0] < |pv|
    ensures Chain([page] + s, page * PAGE_SIZE, PushNext(s, nx, page), PushPrev(s, pv, page))
    ensures Distinct([page] + s)
  {
    var t, nx', pv' := [page] + s, PushNext(s, nx, page), PushPrev(s, pv, page);
    forall i | 0 <= i < |t|
      ensures Node(t, i, nx', pv')
    {
      if i > 0 {
        assert Node(s, i - 1, nx, pv) && t[i] == s[i - 1];
      }
    }
  }

  /** Linking a page elsewhere leaves a list alone when it shares neither that page nor the old first page. */
  lemma ChainPushOther(t: seq<nat>, head: nat, s: seq<nat>, nx: seq<nat>, pv: seq<nat>, page: nat)
    requires Chain(t, head, nx, pv)
    requires page < |nx| == |pv| && page !in t
    requires s != [] ==> s[0] < |pv| && s[0] !in t
    ensures Chain(t, head, PushNext(s, nx, page), PushPrev(s, pv, page))
  {
    forall i | 0 <= i < |t|
      ensures Node(t, i, PushNext(s, nx, page), PushPrev(s, pv, page))
    {
      assert Node(t, i, nx, pv);
    }
  }

  /** The memory after unlinking the k-th page of `s`. */
  function DropNext(s: seq<nat>, nx: seq<nat>, k: nat): seq<nat>
    requires k < |s| && (k > 0 ==> s[k - 1] < |nx|)
  {
    if k == 0 then nx else nx[s[k - 1] := Addr(s, k + 1)]
  }

  function DropPrev(s: seq<nat>, pv: seq<nat>, k: nat): seq<nat>
    requires k < |s| && (k + 1 < |s| ==> s[k + 1] < |pv|)
  {
    if k + 1 == |s| then pv else pv[s[k + 1] := Addr(s, k - 1)]
  }

  lemma ChainRemove(s: seq<nat>, head: nat, nx: seq<nat>, pv: seq<nat>, k: nat)
    requires Chain(s, head, nx, pv)
    requires Distinct(s)
    requires k < |s|
    requires forall i :: 0 <= i < |s| ==> s[i] < |nx| == |pv|
    ensures Chain(RemoveAt(s, k), if k == 0 then Addr(s, 1) else head, DropNext(s, nx, k), DropPrev(s, pv, k))
    ensures Distinct(RemoveAt(s, k))
  {
    var t := RemoveAt(s, k);
    forall i | 0 <= i < |t|
      ensures Node(t, i, DropNext(s, nx, k), DropPrev(s, pv, k))
    {
      assert Node(s, i, nx, pv) && Node(s, i + 1, nx, pv);
    }
  }

  lemma ChainRemoveOther(t: seq<nat>, head: nat, s: seq<nat>, nx: seq<nat>, pv: seq<nat>, k: nat)
    requires Chain(t, head, nx, pv)
    requires k < |s|
    requires forall i :: 0 <= i < |s| ==> s[i] < |nx| == |pv| && s[i] !in t
    ensures Chain(t, head, DropNext(s, nx, k), DropPrev(s, pv, k))
  {
    forall i | 0 <= i < |t|
      ensures Node(t, i, DropNext(s, nx, k), DropPrev(s, pv, k))
    {
      assert Node(t, i, nx, pv);
    }
  }

  // ----- the free lists of all orders and the pages they own

  type Lists = seq<seq<nat>>

  /** Each listed page heads a block of its list's order. */
  ghost predicate HeadsOwn(lists: Lists, free: PageMap) {
    forall o, i :: 0 <= o < |lists| && 0 <= i < |lists[o]| ==>
      lists[o][i] in free && free[lists[o][i]] == Block(lists[o][i], o)
  }

  /** Each owned page lies in a listed block inside pages 1..limit-1. */
  ghost predicate PageListed(lists: Lists, b: Block, p: nat, limit: nat) {
    && In(p, b) && 1 <= b.head && b.End() <= limit
    && b.order < |lists| && b.head in lists[b.order]
  }

  ghost predicate PagesListed(lists: Lists, free: PageMap, limit: nat) {
    forall p :: p in free ==> PageListed(lists, free[p], p, limit)
  }

  ghost predicate AllDistinct(lists: Lists) {
    forall o :: 0 <= o < |lists| ==> Distinct(lists[o])
  }

  /** The lists hold pairwise disjoint blocks whose pages are exactly those of `free`. */
  ghost predicate Owned(lists: Lists, free: PageMap, limit: nat) {
    && |lists| == MAX_ORDER + 1
    && HeadsOwn(lists, free)
    && PagesListed(lists, free, limit)
    && WholeBlocks(free)
    && AllDistinct(lists)
  }

  ghost predicate Listed(lists: Lists, b: Block) {
    b.order < |lists| && b.head in lists[b.order]
  }

  /** What ownership means without the ownership map: no two listed blocks share a page. */
  lemma OwnedBlocksDisjoint(lists: Lists, free: PageMap, limit: nat, b: Block, c: Block, p: nat)
    requires Owned(lists, free, limit)
    requires Listed(lists, b) && Listed(lists, c) && In(p, b) && In(p, c)
    ensures b == c
  {
    ListedOwns(lists, free, b);
    ListedOwns(lists, free, c);
    assert OwnsAll(free, b) && OwnsAll(free, c);
  }

  lemma ListedOwns(lists: Lists, free: PageMap, b: Block)
    requires HeadsOwn(lists, free) && Listed(lists, b)
    ensures b.head in free && free[b.head] == b
  {
    var i :| 0 <= i < |lists[b.order]| && lists[b.order][i] == b.head;
    assert lists[b.order][i] in free;
  }

  /** A page is free exactly when some listed block contains it. */
  lemma FreeIffListed(lists: Lists, free: PageMap, limit: nat, p: nat)
    requires Owned(lists, free, limit)
    ensures p in free <==> exists b :: Listed(lists, b) && In(p, b)
  {
    if p in free {
      assert Listed(lists, free[p]) && In(p, free[p]);
    }
    if b :| Listed(lists, b) && In(p, b) {
      ListedOwns(lists, free, b);
      assert OwnsAll(free, b);
    }
  }

  function PushList(lists: Lists, page: nat, order: nat): Lists
    requires order < |lists|
  {
    lists[order := [page] + lists[order]]
  }

  lemma HeadsOwnPush(lists: Lists, free: PageMap, b: Block)
    requires HeadsOwn(lists, free) && b.order < |lists|
    requires forall p :: In(p, b) ==> p !in free
    ensures HeadsOwn(PushList(lists, b.head, b.order), free + Cover(b))
  {
    var lists', free' := PushList(lists, b.head, b.order), free + Cover(b);
    assert In(b.head, b);
    forall o, i | 0 <= o < |lists'| && 0 <= i < |lists'[o]|
      ensures lists'[o][i] in free' && free'[lists'[o][i]] == Block(lists'[o][i], o)
    {
      if o == b.order && i > 0 {
        assert lists'[o][i] == lists[o][i - 1];
      }
    }
  }

  lemma PagesListedPush(lists: Lists, free: PageMap, limit: nat, b: Block)
    requires PagesListed(lists, free, limit) && b.order < |lists|
    requires 1 <= b.head && b.End() <= limit
    ensures PagesListed(PushList(lists, b.head, b.order), free + Cover(b), limit)
  {
    var lists', free' := PushList(lists, b.head, b.order), free + Cover(b);
    assert forall h :: h in lists[b.order] ==> h in lists'[b.order];
    assert b.head in lists'[b.order];
    forall p | p in free'
      ensures PageListed(lists', free'[p], p, limit)
    {
      if !In(p, b) {
        assert PageListed(lists, free[p], p, limit);
      }
    }
  }

  lemma WholeBlocksAdd(m: PageMap, m': PageMap)
    requires WholeBlocks(m) && WholeBlocks(m')
    requires m.Keys !! m'.Keys
    ensures WholeBlocks(m + m')
  {
    forall p | p in m + m'
      ensures In(p, (m + m')[p]) && OwnsAll(m + m', (m + m')[p])
    {
      assert p in m ==> OwnsAll(m, m[p]);
      assert p in m' ==> OwnsAll(m', m'[p]);
    }
  }

  lemma OwnedPush(lists: Lists, free: PageMap, limit: nat, b: Block)
    requires Owned(lists, free, limit)
    requires b.order <= MAX_ORDER && 1 <= b.head && b.End() <= limit
    requires forall p :: In(p, b) ==> p !in free
    ensures Owned(PushList(lists, b.head, b.order), free + Cover(b), limit)
  {
    HeadsOwnPush(lists, free, b);
    PagesListedPush(lists, free, limit, b);
    WholeBlocksAdd(free, Cover(b));
    assert In(b.head, b);
    assert b.head !in lists[b.order];
    assert Distinct([b.head] + lists[b.order]) by {
      assert Distinct(lists[b.order]);
    }
  }

  /** The pages that stay when the block b goes. */
  function Without(free: PageMap, b: Block): (m: PageMap)
    ensures forall p :: p in m <==> p in free && !In(p, b)
    ensures forall p :: p in m ==> m[p] == free[p]
  {
    map p | p in free && !In(p, b) :: free[p]
  }

  lemma HeadsOwnRemove(lists: Lists, free: PageMap, b: Block, k: nat)
    requires HeadsOwn(lists, free) && WholeBlocks(free) && AllDistinct(lists)
    requires b.order < |lists| && k < |lists[b.order]| && lists[b.order][k] == b.head
    ensures HeadsOwn(lists[b.order := RemoveAt(lists[b.order], k)], Without(free, b))
  {
    var s := lists[b.order];
    var lists', free' := lists[b.order := RemoveAt(s, k)], Without(free, b);
    ListedOwns(lists, free, b);
    assert OwnsAll(free, b);
    assert Distinct(s);
    forall o, i | 0 <= o < |lists'| && 0 <= i < |lists'[o]|
      ensures lists'[o][i] in free' && free'[lists'[o][i]] == Block(lists'[o][i], o)
    {
      var h := lists'[o][i];
      var j := if o == b.order && i >= k then i + 1 else i;
      assert h == lists[o][j];
      assert free[h] == Block(h, o);
    }
  }

  lemma PagesListedRemove(lists: Lists, free: PageMap, limit: nat, b: Block, k: nat)
    requires PagesListed(lists, free, limit)
    requires b.order < |lists| && k < |lists[b.order]| && lists[b.order][k] == b.head
    ensures PagesListed(lists[b.order := RemoveAt(lists[b.order], k)], Without(free, b), limit)
  {
    var s := lists[b.order];
    var lists', free' := lists[b.order := RemoveAt(s, k)], Without(free, b);
    forall p | p in free'
      ensures PageListed(lists', free'[p], p, limit)
    {
      var c := free[p];
      assert PageListed(lists, c, p, limit);
      if c.order == b.order {
        var j :| 0 <= j < |s| && s[j] == c.head;
        assert c.head == RemoveAt(s, k)[if j < k then j else j - 1];
      }
    }
  }

  lemma WholeBlocksWithout(free: PageMap, b: Block)
    requires WholeBlocks(free)
    requires b.head in free && free[b.head] == b
    ensures WholeBlocks(Without(free, b))
  {
    var free' := Without(free, b);
    assert OwnsAll(free, b);
    forall p | p in free'
      ensures In(p, free'[p]) && OwnsAll(free', free'[p])
    {
      assert OwnsAll(free, free[p]);
    }
  }

  lemma AllDistinctRemove(lists: Lists, order: nat, k: nat)
    requires AllDistinct(lists) && order < |lists| && k < |lists[order]|
    ensures AllDistinct(lists[order := RemoveAt(lists[order], k)])
  {
    assert Distinct(lists[order]);
    assert Distinct(RemoveAt(lists[order], k));
  }

  lemma OwnedRemove(lists: Lists, free: PageMap, limit: nat, b: Block, k: nat)
    requires Owned(lists, free, limit)
    requires b.order < |lists| && k < |lists[b.order]| && lists[b.order][k] == b.head
    ensures Owned(lists[b.order := RemoveAt(lists[b.order], k)], Without(free, b), limit)
  {
    ListedOwns(lists, free, b);
    HeadsOwnRemove(lists, free, b, k);
    PagesListedRemove(lists, free, limit, b, k);
    WholeBlocksWithout(free, b);
    AllDistinctRemove(lists, b.order, k);
  }

  // ----- all lists at once

  ghost predicate AllLinked(lists: Lists, heads: seq<nat>, nx: seq<nat>, pv: seq<nat>) {
    && |heads| == |lists|
    && forall o :: 0 <= o < |lists| ==> Chain(lists[o], heads[o], nx, pv)
  }

  /** A page heads blocks of one order only, so it is on no other list. */
  lemma HeadOnOneList(lists: Lists, free: PageMap, a: nat, b: nat, h: nat)
    requires HeadsOwn(lists, free)
    requires a < |lists| && b < |lists| && a != b && h in lists[a]
    ensures h !in lists[b]
  {
    ListedOwns(lists, free, Block(h, a));
    if h in lists[b] {
      ListedOwns(lists, free, Block(h, b));
    }
  }

  lemma NodesInMemory(s: seq<nat>, head: nat, nx: seq<nat>, pv: seq<nat>)
    requires Chain(s, head, nx, pv)
    ensures forall i :: 0 <= i < |s| ==> 1 <= s[i] < |nx| == |pv|
  {
    forall i | 0 <= i < |s|
      ensures 1 <= s[i] < |nx| == |pv|
    {
      assert Node(s, i, nx, pv);
    }
  }

  lemma LinkedPush(lists: Lists, free: PageMap, heads: seq<nat>, nx: seq<nat>, pv: seq<nat>, page: nat, order: nat)
    requires AllLinked(lists, heads, nx, pv) && HeadsOwn(lists, free) && AllDistinct(lists)
    requires order < |lists| && 1 <= page < |nx| == |pv| && page !in free
    ensures lists[order] != [] ==> lists[order][0] < |pv|
    ensures AllLinked(PushList(lists, page, order), heads[order := page * PAGE_SIZE],
                      PushNext(lists[order], nx, page), PushPrev(lists[order], pv, page))
  {
    var s := lists[order];
    NodesInMemory(s, heads[order], nx, pv);
    assert Distinct(s);
    assert forall o, i :: 0 <= o < |lists| && 0 <= i < |lists[o]| ==> lists[o][i] in free;
    ChainPush(s, heads[order], nx, pv, page);
    forall o | 0 <= o < |lists| && o != order
      ensures Chain(lists[o], heads[o], PushNext(s, nx, page), PushPrev(s, pv, page))
    {
      if s != [] { HeadOnOneList(lists, free, order, o, s[0]); }
      ChainPushOther(lists[o], heads[o], s, nx, pv, page);
    }
  }

  lemma LinkedRemove(lists: Lists, free: PageMap, heads: seq<nat>, nx: seq<nat>, pv: seq<nat>, order: nat, k: nat)
    requires AllLinked(lists, heads, nx, pv) && HeadsOwn(lists, free) && AllDistinct(lists)
    requires order < |lists| && k < |lists[order]|
    ensures forall i :: 0 <= i < |lists[order]| ==> 1 <= lists[order][i] < |nx| == |pv|
    ensures AllLinked(lists[order := RemoveAt(lists[order], k)],
                      if k == 0 then heads[order := Addr(lists[order], 1)] else heads,
                      DropNext(lists[order], nx, k), DropPrev(lists[order], pv, k))
  {
    var s := lists[order];
    NodesInMemory(s, heads[order], nx, pv);
    assert Distinct(s);
    ChainRemove(s, heads[order], nx, pv, k);
    forall o | 0 <= o < |lists| && o != order
      ensures Chain(lists[o], heads[o], DropNext(s, nx, k), DropPrev(s, pv, k))
    {
      forall i | 0 <= i < |s|
        ensures s[i] !in lists[o]
      {
        HeadOnOneList(lists, free, order, o, s[i]);
      }
      ChainRemoveOther(lists[o], heads[o], s, nx, pv, k);
    }
  }

  /** Memory holds free lists that own disjoint blocks covering exactly the pages of `free`. */
  ghost predicate Holds(lists: Lists, free: PageMap, heads: seq<nat>, nx: seq<nat>, pv: seq<nat>) {
    |nx| == |pv| && AllLinked(lists, heads, nx, pv) && Owned(lists, free, |nx|)
  }

  lemma HoldsPush(lists: Lists, free: PageMap, heads: seq<nat>, nx: seq<nat>, pv: seq<nat>, b: Block)
    requires Holds(lists, free, heads, nx, pv)
    requires b.order <= MAX_ORDER && 1 <= b.head && b.End() <= |nx|
    requires forall p :: In(p, b) ==> p !in free
    ensures heads[b.order] == Addr(lists[b.order], 0)
    ensures lists[b.order] != [] ==> 1 <= lists[b.order][0] < |nx|
    ensures Holds(PushList(lists, b.head, b.order), free + Cover(b), heads[b.order := b.head * PAGE_SIZE],
                  PushNext(lists[b.order], nx, b.head), PushPrev(lists[b.order], pv, b.head))
  {
    assert In(b.head, b);
    NodesInMemory(lists[b.order], heads[b.order], nx, pv);
    LinkedPush(lists, free, heads, nx, pv, b.head, b.order);
    OwnedPush(lists, free, |nx|, b);
  }

  lemma HoldsRemove(lists: Lists, free: PageMap, heads: seq<nat>, nx: seq<nat>, pv: seq<nat>, order: nat, k: nat)
    requires Holds(lists, free, heads, nx, pv)
    requires order <= MAX_ORDER && k < |lists[order]|
    ensures forall i :: 0 <= i < |lists[order]| ==> 1 <= lists[order][i] < |nx|
    ensures nx[lists[order][k]] == Addr(lists[order], k + 1) && pv[lists[order][k]] == Addr(lists[order], k - 1)
    ensures Holds(lists[order := RemoveAt(lists[order], k)], Without(free, Block(lists[order][k], order)),
                  if k == 0 then heads[order := Addr(lists[order], 1)] else heads,
                  DropNext(lists[order], nx, k), DropPrev(lists[order], pv, k))
  {
    var s := lists[order];
    NodesInMemory(s, heads[order], nx, pv);
    assert Node(s, k, nx, pv);
    LinkedRemove(lists, free, heads, nx, pv, order, k);
    OwnedRemove(lists, free, |nx|, Block(s[k], order), k);
  }
}
