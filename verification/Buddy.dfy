/**
  The buddy page allocator: per-order free lists kept inside the free pages, splitting on allocation,
  and range reservation that edits the lists while walking them.
*/
module Buddy {
  import opened Bits
  import opened Results
  import opened BuddyBlocks
  import opened BuddyLists
  import opened BuddySplit
  import opened BuddyReserve
  import Runs = BuddyRuns

  const ALLOCATED: nat := 0x80
  const INTERIOR_USED: nat := 0xFF

  function UsedLabel(b: Block, p: nat): nat {
    if p == b.head then ALLOCATED + b.order else INTERIOR_USED
  }

  /** The free pages after the blocks of the greedy cut of [cur, end) are pushed one by one. */
  ghost function Inserted(free: PageMap, cur: nat, end: nat): PageMap
    requires cur <= end
    decreases end - cur
  {
    if cur == end then free
    else
      var b := Block(cur, BestOrder(cur, end - cur));
      Inserted(free + Cover(b), b.End(), end)
  }

  lemma InsertedStep(free: PageMap, cur: nat, end: nat, order: nat)
    requires cur < end && IsBestOrder(cur, end - cur, order)
    ensures Inserted(free, cur, end) == Inserted(free + Cover(Block(cur, order)), cur + Pow2(order), end)
  {
    BestOrderUnique(cur, end - cur, order, BestOrder(cur, end - cur));
  }

  lemma {:induction false} InsertedAdds(free: PageMap, cur: nat, end: nat)
    requires cur <= end
    ensures Inserted(free, cur, end) == free + GreedyCover(cur, end)
    ensures cur == end ==> Inserted(free, cur, end) == free
    decreases end - cur
  {
    if cur < end {
      var b := Block(cur, BestOrder(cur, end - cur));
      InsertedAdds(free + Cover(b), b.End(), end);
      AddAssoc(free, Cover(b), GreedyCover(b.End(), end));
    }
  }

  lemma AddAssoc(a: PageMap, b: PageMap, c: PageMap)
    ensures a + (b + c) == (a + b) + c
  {
  }

  /** No page of [lo, hi) is free or handed out, and no page is both. */
  ghost predicate Clear(free: PageMap, used: PageMap, lo: nat, hi: nat) {
    && free.Keys !! used.Keys
    && forall p :: Within(p, lo, hi) ==> p !in free && p !in used
  }

  /** The upper half of a clear block can be freed, and the lower half stays clear. */
  lemma ClearHalves(free: PageMap, used: PageMap, page: nat, cur: nat)
    requires Clear(free, used, page, page + Pow2(cur + 1))
    ensures var buddy := Block(page + Pow2(cur), cur);
      && (forall p :: In(p, buddy) ==> p !in free && p !in used)
      && Clear(free + Cover(buddy), used, page, page + Pow2(cur))
  {
    var buddy, top := Block(page + Pow2(cur), cur), page + Pow2(cur + 1);
    assert forall p :: In(p, buddy) ==> Within(p, page, top);
    assert forall p :: Within(p, page, buddy.head) ==> Within(p, page, top) && !In(p, buddy);
  }

  /** Labelling the head and then the interior labels the block. */
  lemma LabelsPushed(before: seq<nat>, pushed: seq<nat>, after: seq<nat>, b: Block)
    requires pushed == if b.head < |before| then before[b.head := b.order] else before
    requires |after| == |pushed|
    requires forall p :: 0 <= p < |after| ==> after[p] == if b.head < p < b.End() then INTERIOR_FREE else pushed[p]
    ensures after == BlockLabels(before, b, FreeLabel)
  {
  }

  /**
    The label of every page after an allocation: 0x80 plus the order on the block handed out, 0xFF inside it, its order
    on each buddy split off, 0xFE inside that, and as before elsewhere.
  */
  lemma AllocLabels(labels: seq<nat>, page: nat, order: nat, found: nat, c: nat, p: nat)
    requires order <= found && p < |labels|
    ensures var r := BlockLabels(SplitLabels(labels, page, order, found), Block(page, order), UsedLabel);
      && (p == page ==> r[p] == 0x80 + order)
      && (page < p < page + Pow2(order) ==> r[p] == 0xFF)
      && (order <= c < found && p == page + Pow2(c) ==> r[p] == c)
      && (order <= c < found && page + Pow2(c) < p < page + Pow2(c + 1) ==> r[p] == 0xFE)
      && (p < page || page + Pow2(found) <= p ==> r[p] == labels[p])
  {
    Pow2Monotone(order, found);
    if order <= c < found {
      Pow2Monotone(order, c);
      Pow2Monotone(c + 1, found);
      if page + Pow2(c) <= p < page + Pow2(c + 1) {
        FloorLog2Unique(p - page, c);
      }
    }
    hide Pow2;
  }

  /** `pages` lists once each the pages of `all` that are no longer free; they were added to `used0`. */
  ghost predicate Drained(all: set<nat>, used0: set<nat>, free: set<nat>, used: set<nat>, pages: seq<nat>) {
    && free <= all && |pages| + |free| == |all|
    && (forall p :: p in pages <==> p in all && p !in free)
    && used == used0 + (all - free)
  }

  lemma DrainStart(all: set<nat>, used0: set<nat>)
    ensures Drained(all, used0, all, used0, [])
  {
  }

  lemma DrainStep(all: set<nat>, used0: set<nat>, free: set<nat>, used: set<nat>, pages: seq<nat>, page: nat)
    requires Drained(all, used0, free, used, pages) && page in free
    ensures Drained(all, used0, free - {page}, used + {page}, pages + [page])
    ensures |free - {page}| < |free|
  {
  }

  lemma DrainEnd(all: set<nat>, used0: set<nat>, used: set<nat>, pages: seq<nat>)
    requires Drained(all, used0, {}, used, pages)
    ensures |pages| == |all| && used == used0 + all
    ensures forall p :: p in pages <==> p in all
  {
  }

  class BuddyAllocator {
    const totalPages: nat
    const freeLists: array<nat>   // physical address of the first node per order, 0 when empty
    const next: array<nat>        // `next` of the node stored in page p
    const prev: array<nat>        // `prev` of the node stored in page p
    const orderMap: array<nat>    // one label byte per page
    const reserved: array<bool>
    var initialized: bool

    ghost var lists: Lists        // the pages on each free list, first to last
    ghost var free: PageMap       // the block that owns each free page
    ghost var used: PageMap       // the block handed out for each allocated page
    ghost var held: set<nat>      // the reserved pages

    /** Node memory has one page more than the managed range. */
    ghost function Limit(): nat {
      totalPages + 1
    }

    ghost predicate Shape() {
      && freeLists.Length == MAX_ORDER + 1
      && next.Length == prev.Length == Limit()
      && orderMap.Length == reserved.Length == totalPages
      && freeLists != next && freeLists != prev && freeLists != orderMap
      && next != prev && next != orderMap && prev != orderMap
    }

    /** The lists are well linked and own disjoint blocks inside the node memory. */
    ghost predicate Structured()
      reads this`lists, this`free, freeLists, next, prev
    {
      Shape() && |lists| == MAX_ORDER + 1 && Holds(lists, free, freeLists[..], next[..], prev[..])
    }

    /** Labels agree with ownership: heads of free blocks carry their order, allocated pages their marks. */
    ghost predicate Labelled()
      requires Shape()
      reads this`free, this`used, orderMap
    {
      && (forall h :: h in free && free[h].head == h && h < totalPages ==> orderMap[h] == free[h].order)
      && (forall p :: p in used && p < totalPages ==> orderMap[p] == UsedLabel(used[p], p))
    }

    ghost predicate Bookkept()
      requires Shape()
      reads this`free, this`used, this`held, reserved
    {
      && free.Keys !! used.Keys
      && free.Keys !! held
      && forall p :: 0 <= p < totalPages ==> (reserved[p] <==> p in held)
    }

    ghost predicate Valid()
      reads this, freeLists, next, prev, orderMap, reserved
    {
      Structured() && Labelled() && Bookkept()
    }

    ghost function Pages(): Runs.Pages
      reads this`free, this`used, this`held
    {
      Runs.Pages(free.Keys, used.Keys, held)
    }

    /** An allocator with no free memory, as `new` builds it. */
    constructor (pages: nat)
      ensures Valid() && initialized && totalPages == pages
      ensures free == map[] && used == map[] && held == {}
      ensures fresh(freeLists) && fresh(next) && fresh(prev) && fresh(orderMap) && fresh(reserved)
    {
      totalPages := pages;
      freeLists := new nat[MAX_ORDER + 1](_ => 0);
      next := new nat[pages + 1](_ => 0);
      prev := new nat[pages + 1](_ => 0);
      orderMap := new nat[pages](_ => 0);
      reserved := new bool[pages](_ => false);
      initialized := true;
      lists := seq(MAX_ORDER + 1, _ => []);
      free := map[];
      used := map[];
      held := {};
    }

    method OmSet(page: nat, val: nat)
      requires Shape()
      modifies orderMap
      ensures orderMap[..] == if page < totalPages then old(orderMap[..])[page := val] else old(orderMap[..])
    {
      if page < orderMap.Length {
        orderMap[page] := val;
      }
    }

    /** The pointer updates of list_push on a list with pages `s`. */
    method LinkFront(page: nat, order: nat, ghost s: seq<nat>)
      requires Shape() && order <= MAX_ORDER && page < Limit()
      requires freeLists[order] == Addr(s, 0)
      requires s != [] ==> 1 <= s[0] < Limit()
      modifies freeLists, next, prev
      ensures next[..] == PushNext(s, old(next[..]), page)
      ensures prev[..] == PushPrev(s, old(prev[..]), page)
      ensures freeLists[..] == old(freeLists[..])[order := page * PAGE_SIZE]
    {
      var phys := page * PAGE_SIZE;
      var first := freeLists[order];
      next[page] := first;
      prev[page] := 0;
      if first != 0 {
        prev[first / PAGE_SIZE] := phys;
      }
      freeLists[order] := phys;
    }

    /** The pointer updates of list_remove on the k-th page of a list with pages `s`. */
    method Unlink(phys: nat, order: nat, ghost s: seq<nat>, ghost k: nat)
      requires Shape() && order <= MAX_ORDER
      requires k < |s| && phys == s[k] * PAGE_SIZE
      requires forall i :: 0 <= i < |s| ==> 1 <= s[i] < Limit()
      requires next[s[k]] == Addr(s, k + 1) && prev[s[k]] == Addr(s, k - 1)
      modifies freeLists, next, prev
      ensures next[..] == DropNext(s, old(next[..]), k)
      ensures prev[..] == DropPrev(s, old(prev[..]), k)
      ensures freeLists[..] == if k == 0 then old(freeLists[..])[order := Addr(s, 1)] else old(freeLists[..])
    {
      var node := phys / PAGE_SIZE;
      var nextAddr, prevAddr := next[node], prev[node];
      if prevAddr != 0 {
        next[prevAddr / PAGE_SIZE] := nextAddr;
      } else {
        freeLists[order] := nextAddr;
      }
      if nextAddr != 0 {
        prev[nextAddr / PAGE_SIZE] := prevAddr;
      }
    }

    /** list_push: put `page` in front of the free list of `order`. */
    method ListPush(page: nat, order: nat)
      requires Structured()
      requires order <= MAX_ORDER && 1 <= page && Block(page, order).End() <= Limit()
      requires forall p :: In(p, Block(page, order)) ==> p !in free
      modifies freeLists, next, prev, this`lists, this`free
      ensures Structured()
      ensures lists == PushList(old(lists), page, order)
      ensures free == old(free) + Cover(Block(page, order))
    {
      HoldsPush(lists, free, freeLists[..], next[..], prev[..], Block(page, order));
      LinkFront(page, order, lists[order]);
      lists := PushList(lists, page, order);
      free := free + Cover(Block(page, order));
    }

    /** list_remove: take the node at `phys`, the k-th of its list, off the list. */
    method ListRemove(phys: nat, order: nat, ghost k: nat)
      requires Structured()
      requires order <= MAX_ORDER && k < |lists[order]| && phys == lists[order][k] * PAGE_SIZE
      modifies freeLists, next, prev, this`lists, this`free
      ensures Structured()
      ensures lists == old(lists)[order := RemoveAt(old(lists[order]), k)]
      ensures free == Without(old(free), Block(old(lists[order][k]), order))
      ensures old(Labelled()) ==> Labelled()
    {
      hide Holds, Without, DropNext, DropPrev;
      ghost var s := lists[order];
      HoldsRemove(lists, free, freeLists[..], next[..], prev[..], order, k);
      Unlink(phys, order, s, k);
      lists, free := lists[order := RemoveAt(s, k)], Without(free, Block(s[k], order));
    }

    lemma HasLists()
      requires Structured()
      ensures Shape() && |lists| == MAX_ORDER + 1
    {
    }

    lemma HeadFacts(order: nat)
      requires Structured() && order <= MAX_ORDER
      ensures lists[order] != [] ==>
        1 <= lists[order][0] < Limit() && freeLists[order] == lists[order][0] * PAGE_SIZE
      ensures freeLists[order] == 0 <==> lists[order] == []
    {
      assert Chain(lists[order], freeLists[..][order], next[..], prev[..]);
      if lists[order] != [] {
        assert Node(lists[order], 0, next[..], prev[..]);
      }
    }

    // ----- labels

    /** Labels the pages after the first of a block. */
    method MarkInterior(head: nat, size: nat, val: nat)
      requires Shape() && size >= 1
      modifies orderMap
      ensures forall p :: 0 <= p < totalPages ==>
        orderMap[p] == if head < p < head + size then val else old(orderMap[p])
    {
      var i := 1;
      while i < size
        invariant 1 <= i <= size
        invariant forall p :: 0 <= p < totalPages ==>
          orderMap[p] == if head < p < head + i then val else old(orderMap[p])
      {
        OmSet(head + i, val);
        i := i + 1;
      }
    }

    // ----- inserting a free range

    /** Push a block and label its head. */
    method FreeBlock(page: nat, order: nat)
      requires Structured() && Labelled()
      requires order <= MAX_ORDER && 1 <= page && Block(page, order).End() <= Limit()
      requires forall p :: In(p, Block(page, order)) ==> p !in free && p !in used
      modifies freeLists, next, prev, orderMap, this`lists, this`free
      ensures Structured() && Labelled()
      ensures lists == PushList(old(lists), page, order)
      ensures free == old(free) + Cover(Block(page, order))
      ensures orderMap[..] == if page < totalPages then old(orderMap[..])[page := order] else old(orderMap[..])
    {
      hide Holds, Pow2;
      assert In(page, Block(page, order));
      ListPush(page, order);
      OmSet(page, order);
    }

    /** push_free_range: cut [start, start + npages) into naturally aligned blocks and free them. */
    method PushFreeRange(start: nat, npages: nat)
      requires Structured() && Labelled()
      requires npages > 0 ==> 1 <= start && start + npages <= Limit()
      requires forall p :: Within(p, start, start + npages) ==> p !in free && p !in used
      modifies freeLists, next, prev, orderMap, this`lists, this`free
      ensures Structured() && Labelled()
      ensures free == old(free) + GreedyCover(start, start + npages)
      ensures lists == PushBlocks(old(lists), Greedy(start, start + npages))
      ensures forall o :: 0 <= o <= MAX_ORDER && Pow2(o) > npages ==> lists[o] == old(lists)[o]
    {
      hide Holds, Labelled, GreedyCover, IsBestOrder, Inserted, Cover, Pow2, PushBlocks, Greedy, PushList;
      var cur, remaining := start, npages;
      ghost var end := start + npages;
      while remaining > 0
        invariant start <= cur <= end && cur + remaining == end
        invariant Structured() && Labelled()
        invariant Inserted(free, cur, end) == Inserted(old(free), start, end)
        invariant PushBlocks(lists, Greedy(cur, end)) == PushBlocks(old(lists), Greedy(start, end))
        invariant forall p :: Within(p, cur, end) ==> p !in free && p !in used
        invariant forall o :: 0 <= o <= MAX_ORDER && Pow2(o) > npages ==> lists[o] == old(lists)[o]
      {
        var order := ChooseOrder(cur, remaining);
        InsertedStep(free, cur, end, order);
        GreedyStep(lists, cur, end, order);
        PushListOthers(lists, cur, order);
        var blockSize := Pow2(order);
        assert blockSize <= npages;
        assert forall p :: In(p, Block(cur, order)) ==> Within(p, cur, end);
        FreeBlock(cur, order);
        cur := cur + blockSize;
        remaining := remaining - blockSize;
        assert forall p :: Within(p, cur, end) ==> Within(p, cur - blockSize, end);
      }
      InsertedAdds(free, cur, end);
      InsertedAdds(old(free), start, end);
      GreedyNothing(lists, cur);
    }

    lemma PushListOthers(ls: Lists, page: nat, order: nat)
      requires order < |ls|
      ensures |PushList(ls, page, order)| == |ls|
      ensures forall o :: 0 <= o < |ls| && o != order ==> PushList(ls, page, order)[o] == ls[o]
    {
    }

    // ----- allocation

    ghost function FirstNonEmpty(ls: Lists, order: nat): (o: nat)
      requires |ls| == MAX_ORDER + 1 && order <= MAX_ORDER + 1
      ensures order <= o <= MAX_ORDER + 1
      ensures forall c :: order <= c < o ==> ls[c] == []
      ensures o <= MAX_ORDER ==> ls[o] != []
      decreases MAX_ORDER + 1 - order
    {
      if order == MAX_ORDER + 1 || ls[order] != [] then order else FirstNonEmpty(ls, order + 1)
    }

    /** One turn of the splitting loop: free the buddy of order cur and label its pages. */
    method SplitOnce(page: nat, cur: nat)
      requires Structured() && Labelled()
      requires cur < MAX_ORDER && 1 <= page && page + Pow2(cur + 1) <= Limit()
      requires Clear(free, used, page, page + Pow2(cur + 1))
      modifies freeLists, next, prev, orderMap, this`lists, this`free
      ensures Structured() && Labelled()
      ensures lists == PushList(old(lists), page + Pow2(cur), cur)
      ensures free == old(free) + Cover(Block(page + Pow2(cur), cur))
      ensures Clear(free, used, page, page + Pow2(cur))
      ensures orderMap[..] == BlockLabels(old(orderMap[..]), Block(page + Pow2(cur), cur), FreeLabel)
    {
      hide Holds, Cover, Clear, BlockLabels, FreeLabel;
      var buddy := page + Pow2(cur);
      ClearHalves(free, used, page, cur);
      ghost var before := orderMap[..];
      FreeBlock(buddy, cur);
      ghost var pushed := orderMap[..];
      MarkInterior(buddy, Pow2(cur), INTERIOR_FREE);
      LabelsPushed(before, pushed, orderMap[..], Block(buddy, cur));
    }

    /** The splitting loop of alloc_order: hand back the upper halves of the block at `page`. */
    method Split(page: nat, order: nat, found: nat)
      requires Structured() && Labelled()
      requires order <= found <= MAX_ORDER && 1 <= page && page + Pow2(found) <= Limit()
      requires Clear(free, used, page, page + Pow2(found))
      modifies freeLists, next, prev, orderMap, this`lists, this`free
      ensures Structured() && Labelled()
      ensures lists == SplitLists(old(lists), page, order, found)
      ensures free == SplitFree(old(free), page, order, found)
      ensures Clear(free, used, page, page + Pow2(order))
      ensures orderMap[..] == SplitLabels(old(orderMap[..]), page, order, found)
    {
      hide Structured, Labelled, Clear, Pow2, SplitFree, SplitLists, SplitLabels, BlockLabels, FreeLabel, Cover,
        PushList, In, LabelAt;
      HasLists();
      var cur := found;
      SplitListsNone(lists, page, found);
      SplitLabelsNone(orderMap[..], page, found);
      while cur > order
        invariant order <= cur <= found
        invariant Structured() && Labelled() && Clear(free, used, page, page + Pow2(cur))
        invariant lists == SplitLists(old(lists), page, cur, found)
        invariant SplitFree(free, page, order, cur) == SplitFree(old(free), page, order, found)
        invariant orderMap[..] == SplitLabels(old(orderMap[..]), page, cur, found)
      {
        cur := cur - 1;
        Pow2Monotone(cur + 1, found);
        SplitFreeStep(free, page, order, cur);
        SplitListsStep(old(lists), page, cur, found);
        SplitLabelsStep(old(orderMap[..]), page, cur, found);
        SplitOnce(page, cur);
      }
      SplitFreeStep(free, page, order, order);
    }

    /** The labels of an allocated block. */
    method MarkUsed(page: nat, order: nat)
      requires Structured() && Labelled() && Clear(free, used, page, page + Pow2(order))
      modifies orderMap, this`used
      ensures Structured() && Labelled() && free.Keys !! used.Keys
      ensures used == old(used) + Cover(Block(page, order))
      ensures orderMap[..] == BlockLabels(old(orderMap[..]), Block(page, order), UsedLabel)
    {
      hide Holds, Pow2;
      ghost var b, end := Block(page, order), page + Pow2(order);
      assert forall p :: In(p, b) <==> Within(p, page, end);
      OmSet(page, ALLOCATED + order);
      MarkInterior(page, Pow2(order), INTERIOR_USED);
      used := used + Cover(b);
    }

    lemma FirstBlock(order: nat)
      requires Structured() && order <= MAX_ORDER && lists[order] != []
      ensures freeLists[order] == lists[order][0] * PAGE_SIZE
      ensures 1 <= lists[order][0] && Block(lists[order][0], order).End() <= Limit()
      ensures lists[order][0] in free && free[lists[order][0]] == Block(lists[order][0], order)
      ensures OwnsAll(free, Block(lists[order][0], order))
    {
      HeadFacts(order);
      ListedOwns(lists, free, Block(lists[order][0], order));
      assert PageListed(lists, free[lists[order][0]], lists[order][0], Limit());
    }

    lemma ClearAfterRemove(fr: PageMap, us: PageMap, page: nat, found: nat)
      requires fr.Keys !! us.Keys && OwnsAll(fr, Block(page, found))
      ensures Clear(Without(fr, Block(page, found)), us, page, page + Pow2(found))
    {
      var end := page + Pow2(found);
      assert forall p :: Within(p, page, end) ==> In(p, Block(page, found));
    }

    lemma AllocStep(fr: PageMap, us: PageMap, hd: set<nat>, page: nat, order: nat, found: nat)
      requires order <= found && OwnsAll(fr, Block(page, found))
      ensures Runs.Step(Runs.Pages(fr.Keys, us.Keys, hd), Runs.Alloc(page, order),
                        Runs.Pages(AllocPages(fr, page, order, found).Keys, (us + Cover(Block(page, order))).Keys, hd))
    {
      Pow2Monotone(order, found);
      var b, pages := Block(page, order), Runs.BlockPages(page, order);
      assert Cover(b).Keys == pages;
      forall p | p in pages
        ensures p in fr
      {
        assert In(p, Block(page, found));
      }
    }

    /** The search loop of alloc_order. */
    method FindOrder(order: nat) returns (found: nat)
      requires Structured() && order <= MAX_ORDER
      ensures found == FirstNonEmpty(lists, order)
    {
      hide Holds;
      found := order;
      while found <= MAX_ORDER && freeLists[found] == 0
        invariant order <= found <= MAX_ORDER + 1
        invariant FirstNonEmpty(lists, order) == FirstNonEmpty(lists, found)
      {
        HeadFacts(found);
        found := found + 1;
      }
      if found <= MAX_ORDER {
        HeadFacts(found);
      }
    }

    /** Takes the first block of order `found` and splits it down to `order`. */
    method Carve(order: nat, found: nat) returns (phys: nat)
      requires Structured() && Labelled() && free.Keys !! used.Keys
      requires order <= found <= MAX_ORDER && lists[found] != []
      modifies freeLists, next, prev, orderMap, this`lists, this`free, this`used
      ensures Structured() && Labelled() && free.Keys !! used.Keys
      ensures var page := old(lists)[found][0];
        && phys == page * PAGE_SIZE && page >= 1
        && page in old(free) && old(free)[page] == Block(page, found)
        && lists == SplitLists(old(lists)[found := RemoveAt(old(lists)[found], 0)], page, order, found)
        && free == AllocPages(old(free), page, order, found)
        && used == old(used) + Cover(Block(page, order))
        && orderMap[..] == BlockLabels(SplitLabels(old(orderMap[..]), page, order, found), Block(page, order),
                                       UsedLabel)
        && Runs.Step(old(Pages()), Runs.Alloc(page, order), Pages())
    {
      hide Holds, Labelled, Clear, SplitFree, SplitLists, SplitLabels, BlockLabels, LabelAt, UsedLabel, AllocPages,
        OwnsAll,
        Without, Cover, RemoveAt, In, Runs.Step, Pow2;
      FirstBlock(found);
      phys := freeLists[found];
      var page := phys / PAGE_SIZE;
      ClearAfterRemove(free, used, page, found);
      SplitIsAllocPages(free, page, order, found);
      ListRemove(phys, found, 0);
      Split(page, order, found);
      MarkUsed(page, order);
      AllocStep(old(free), old(used), held, page, order, found);
    }

    /** alloc_order: take the first block of the lowest sufficient order and split it down to `order`. */
    method AllocOrder(order: nat) returns (r: Option<nat>)
      requires Valid()
      modifies freeLists, next, prev, orderMap, this`lists, this`free, this`used
      ensures Valid()
      ensures r.None? <==> order > 10 || !initialized || FirstNonEmpty(old(lists), order) > 10
      ensures r.None? ==>
        lists == old(lists) && free == old(free) && used == old(used) && orderMap[..] == old(orderMap[..])
      ensures r.Some? ==>
        var found := FirstNonEmpty(old(lists), order);
        var page := old(lists)[found][0];
        && r.value == page * 4096 && page >= 1
        && page in old(free) && old(free)[page] == Block(page, found)
        && lists == SplitLists(old(lists)[found := RemoveAt(old(lists)[found], 0)], page, order, found)
        && free == AllocPages(old(free), page, order, found)
        && used == old(used) + Cover(Block(page, order))
        && orderMap[..] == BlockLabels(SplitLabels(old(orderMap[..]), page, order, found), Block(page, order),
                                       UsedLabel)
        && Runs.Step(old(Pages()), Runs.Alloc(page, order), Pages())
    {
      hide Holds, Labelled, SplitLists, SplitLabels, BlockLabels, LabelAt, UsedLabel, AllocPages, Cover, RemoveAt,
        FirstNonEmpty,
        In, Runs.Step, Pow2;
      if order > MAX_ORDER || !initialized {
        return None;
      }
      var found := FindOrder(order);
      if found > MAX_ORDER {
        return None;
      }
      var phys := Carve(order, found);
      r := Some(phys);
    }

    // ----- reservation

    /** The loop body of reserve_range for an overlapping block: unlink it, push back what lies outside. */
    method CutBlock(phys: nat, order: nat, start: nat, end: nat, ghost k: nat)
      requires Structured() && Labelled() && free.Keys !! used.Keys
      requires order <= MAX_ORDER && k < |lists[order]| && phys == lists[order][k] * PAGE_SIZE
      requires start <= end && Overlaps(Block(lists[order][k], order), start, end)
      modifies freeLists, next, prev, orderMap, this`lists, this`free
      ensures Structured() && Labelled() && free.Keys !! used.Keys
      ensures |lists| == MAX_ORDER + 1 && lists[order] == RemoveAt(old(lists)[order], k)
      ensures lists == PushBlocks(old(lists)[order := RemoveAt(old(lists)[order], k)],
                                  RemnantBlocks(Block(old(lists)[order][k], order), start, end))
      ensures free == Without(old(free), Block(old(lists)[order][k], order))
                      + Remnant(Block(old(lists)[order][k], order), start, end)
    {
      hide Holds, Labelled, GreedyCover, RemoveAt, Remnant, WholeBlocks, OwnsAll, BestBlock, Pow2, PushBlocks, Greedy;
      var pfn, size := phys / PAGE_SIZE, Pow2(order);
      ghost var b := Block(pfn, order);
      ListedBlock(order, k);
      ListRemove(phys, order, k);
      ghost var kept, less := free, lists;
      RemnantParts(kept, b, start, end);
      RemnantPushes(less, b, start, end);
      if pfn < start {
        assert forall p :: Within(p, pfn, start) ==> In(p, b);
        PushFreeRange(pfn, start - pfn);
      }
      assert free == kept + LeftRemnant(b, start);
      var blockEnd := pfn + size;
      if blockEnd > end {
        var rightStart := if pfn > end then pfn else end;
        assert forall p :: Within(p, rightStart, blockEnd) ==> In(p, b) && p !in LeftRemnant(b, start);
        PushFreeRange(rightStart, blockEnd - rightStart);
      }
      assert free == kept + LeftRemnant(b, start) + RightRemnant(b, end);
    }

    /** Pushing the remnant is pushing its left part and then its right part. */
    lemma RemnantPushes(ls: Lists, b: Block, start: nat, end: nat)
      requires start <= end && Overlaps(b, start, end)
      ensures var left := if b.head < start then PushBlocks(ls, Greedy(b.head, start)) else ls;
        PushBlocks(ls, RemnantBlocks(b, start, end))
        == if end < b.End() then PushBlocks(left, Greedy(end, b.End())) else left
    {
      hide PushBlocks, Greedy;
      var left := if b.head < start then Greedy(b.head, start) else [];
      var right := if end < b.End() then Greedy(end, b.End()) else [];
      PushBlocksConcat(ls, left, right);
      PushNoBlocks(ls);
      PushNoBlocks(PushBlocks(ls, left));
    }

    lemma PushNoBlocks(ls: Lists)
      ensures PushBlocks(ls, []) == ls
    {
    }

    lemma ListedBlock(order: nat, k: nat)
      requires Structured() && order <= MAX_ORDER && k < |lists[order]|
      ensures 1 <= lists[order][k] && Block(lists[order][k], order).End() <= Limit()
      ensures lists[order][k] in free && free[lists[order][k]] == Block(lists[order][k], order)
      ensures forall p :: In(p, Block(lists[order][k], order)) ==> p in free
    {
      var h := lists[order][k];
      ListedOwns(lists, free, Block(h, order));
      assert PageListed(lists, free[h], h, Limit());
      assert OwnsAll(free, Block(h, order));
    }

    /** The walk over one free list, which it edits on the way. */
    method ReserveOnList(order: nat, start: nat, end: nat, ghost free0: PageMap)
      requires Structured() && Labelled() && free.Keys !! used.Keys
      requires order <= MAX_ORDER && start <= end && WholeBlocks(free0)
      requires free == CutPages(free0, order, lists[order], start, end)
      modifies freeLists, next, prev, orderMap, this`lists, this`free
      ensures Structured() && Labelled() && free.Keys !! used.Keys
      ensures free == CutPages(free0, order, [], start, end)
      ensures |old(lists)| == MAX_ORDER + 1 && lists == WalkedLists(old(lists), order, old(lists)[order], start, end)
    {
      hide Structured, Labelled, CutPages, WholeBlocks, Remnant, Without, RemoveAt, Pow2, WalkedLists, CutList,
        PushBlocks, RemnantBlocks;
      HasLists();
      ghost var lists0 := lists;
      ghost var kept: seq<nat>, rest: seq<nat> := [], lists[order];
      HeadFacts(order);
      var phys := freeLists[order];
      while phys != 0
        invariant phys == Addr(rest, 0) && (rest != [] ==> phys != 0)
        invariant Structured() && Labelled() && free.Keys !! used.Keys
        invariant |lists| == MAX_ORDER + 1 && lists[order] == kept + rest
        invariant free == CutPages(free0, order, rest, start, end)
        invariant WalkedLists(lists, order, rest, start, end) == WalkedLists(lists0, order, lists0[order], start, end)
        decreases |rest|
      {
        NodeOf(order, kept, rest);
        ghost var left := rest[1..];
        var pfn, blockSize := phys / PAGE_SIZE, Pow2(order);
        var nextPhys := next[pfn];
        ghost var b := Block(pfn, order);
        WalkedBlockIsOriginal(free0, order, rest, start, end, b);
        WalkOnce(lists, order, kept, rest, start, end);
        if pfn < end && pfn + blockSize > start {
          CutStepInto(free0, order, left, b, start, end);
          CutBlock(phys, order, start, end, |kept|);
        } else {
          CutStepOver(free0, order, left, b, start, end);
          kept := kept + [pfn];
        }
        phys, rest := nextPhys, left;
      }
      WalkDone(lists, order, start, end);
    }

    /** What looking at the first page of `rest` does to the lists. */
    lemma WalkOnce(ls: Lists, order: nat, kept: seq<nat>, rest: seq<nat>, start: nat, end: nat)
      requires order < |ls| && start <= end && rest != [] && ls[order] == kept + rest && Distinct(kept + rest)
      ensures |kept| < |ls[order]|
      ensures var b := Block(rest[0], order);
        && WalkedLists(ls, order, rest, start, end)
           == WalkedLists(CutList(ls, order, rest[0], start, end), order, rest[1..], start, end)
        && (!Overlaps(b, start, end) ==> CutList(ls, order, rest[0], start, end) == ls)
        && (Overlaps(b, start, end) ==>
              CutList(ls, order, rest[0], start, end)
              == PushBlocks(ls[order := RemoveAt(ls[order], |kept|)], RemnantBlocks(b, start, end)))
    {
      hide PushBlocks, RemnantBlocks, Distinct, Overlaps, RemoveAt;
      SplitFirst(kept, rest);
      RemoveAfter(kept, rest[0], rest[1..]);
    }

    lemma WalkDone(ls: Lists, order: nat, start: nat, end: nat)
      requires order < |ls| && start <= end
      ensures WalkedLists(ls, order, [], start, end) == ls
    {
    }

    /** What the walk knows about the node it visits: `rest` is the part of the list not yet visited. */
    lemma NodeOf(order: nat, kept: seq<nat>, rest: seq<nat>)
      requires Structured() && order <= MAX_ORDER && rest != [] && lists[order] == kept + rest
      ensures 1 <= rest[0] < Limit() && next[rest[0]] == Addr(rest[1..], 0)
      ensures rest[1..] != [] ==> next[rest[0]] != 0
      ensures rest[0] in free && free[rest[0]] == Block(rest[0], order) && Distinct(kept + rest)
      ensures rest == [rest[0]] + rest[1..] && rest[0] !in rest[1..]
      ensures lists[order][|kept|] == rest[0] && RemoveAt(lists[order], |kept|) == kept + rest[1..]
      ensures kept + rest == (kept + [rest[0]]) + rest[1..]
    {
      hide Structured, In;
      HasLists();
      var s, i := lists[order], |kept|;
      NodeInMemory(order, i);
      ListedBlock(order, i);
      assert rest[1..] == s[i + 1..];
    }

    lemma NodeInMemory(order: nat, i: nat)
      requires Structured() && order <= MAX_ORDER && i < |lists[order]|
      ensures 1 <= lists[order][i] < Limit() && next[lists[order][i]] == Addr(lists[order], i + 1)
      ensures i + 1 < |lists[order]| ==> lists[order][i + 1] >= 1
      ensures lists[order][i] !in lists[order][i + 1..] && Distinct(lists[order])
    {
      var s := lists[order];
      assert Chain(s, freeLists[..][order], next[..], prev[..]);
      assert Node(s, i, next[..], prev[..]);
      if i + 1 < |s| { assert Node(s, i + 1, next[..], prev[..]); }
      assert Distinct(s);
    }

    /** Sets or clears the reserved flag of every managed page of a range. */
    method MarkReserved(start: nat, end: nat, flag: bool)
      requires Shape() && start <= end
      modifies reserved
      ensures forall p :: 0 <= p < totalPages ==>
        reserved[p] == if Within(p, start, end) then flag else old(reserved[p])
    {
      var i := start;
      while i < end
        invariant start <= i <= end
        invariant forall p :: 0 <= p < totalPages ==>
          reserved[p] == if Within(p, start, i) then flag else old(reserved[p])
      {
        if i < reserved.Length {
          reserved[i] := flag;
        }
        i := i + 1;
      }
    }

    lemma ListsAreComplete(order: nat)
      requires Structured() && order <= MAX_ORDER
      ensures WholeBlocks(free)
      ensures forall p :: p in free ==> free[p].order <= MAX_ORDER
      ensures forall p :: p in free && free[p].order == order ==> free[p].head in lists[order]
    {
      forall p | p in free
        ensures free[p].order <= MAX_ORDER && (free[p].order == order ==> free[p].head in lists[order])
      {
        assert PageListed(lists, free[p], p, Limit());
      }
    }

    /** The list of the next order still holds every original block of that order. */
    lemma NextListComplete(free0: PageMap, order: nat, start: nat, end: nat)
      requires Structured() && order < MAX_ORDER && start <= end
      requires free == CutPages(free0, order, [], start, end)
      ensures forall p :: p in free0 && free0[p].order == order + 1 ==> free0[p].head in lists[order + 1]
    {
      ListsAreComplete(order + 1);
      forall p | p in free0 && free0[p].order == order + 1
        ensures free0[p].head in lists[order + 1]
      {
        CutKeepsLater(free0, order, start, end, p);
        assert p in free;
      }
    }

    /** The walk over all lists. */
    method ReserveOnAllLists(start: nat, end: nat)
      requires Structured() && Labelled() && free.Keys !! used.Keys
      requires start <= end
      modifies freeLists, next, prev, orderMap, this`lists, this`free
      ensures Structured() && Labelled() && free.Keys !! used.Keys
      ensures free == ReservePages(old(free), start, end)
      ensures lists == ReservedLists(old(lists), 0, start, end)
    {
      hide Holds, Labelled, CutPages, ReservePages, WholeBlocks, ReservedLists, WalkedLists;
      ghost var free0, lists0 := free, lists;
      ListsAreComplete(0);
      CutStart(free0, lists[0], start, end);
      var order := 0;
      while order <= MAX_ORDER
        invariant 0 <= order <= MAX_ORDER + 1
        invariant Structured() && Labelled() && free.Keys !! used.Keys
        invariant order <= MAX_ORDER ==> free == CutPages(free0, order, lists[order], start, end)
        invariant order == MAX_ORDER + 1 ==> free == CutPages(free0, MAX_ORDER, [], start, end)
        invariant ReservedLists(lists, order, start, end) == ReservedLists(lists0, 0, start, end)
      {
        ReserveStep(lists, order, start, end);
        ReserveOnList(order, start, end, free0);
        if order < MAX_ORDER {
          NextListComplete(free0, order, start, end);
          CutNextOrder(free0, order, lists[order + 1], start, end);
        }
        order := order + 1;
      }
      CutDone(free0, start, end);
      ReserveEnd(lists, start, end);
    }

    lemma ReserveStep(ls: Lists, order: nat, start: nat, end: nat)
      requires order < |ls| && start <= end
      ensures ReservedLists(ls, order, start, end)
        == ReservedLists(WalkedLists(ls, order, ls[order], start, end), order + 1, start, end)
    {
    }

    lemma ReserveEnd(ls: Lists, start: nat, end: nat)
      requires start <= end
      ensures ReservedLists(ls, |ls|, start, end) == ls
    {
    }

    /** reserve_range: no page of [start, start + npages) stays on a free list. */
    method ReserveRange(start: nat, npages: nat)
      requires Valid()
      modifies freeLists, next, prev, orderMap, reserved, this`lists, this`free, this`held
      ensures Valid()
      ensures free == ReservePages(old(free), start, start + npages)
      ensures lists == ReservedLists(old(lists), 0, start, start + npages)
      ensures free.Keys == old(free).Keys - Range(start, start + npages)
      ensures held == old(held) + Range(start, start + npages)
      ensures Runs.Step(old(Pages()), Runs.Reserve(start, start + npages), Pages())
    {
      hide Holds, Labelled, ReservePages, WholeBlocks, Pow2, ReservedLists;
      var end := start + npages;
      ListsAreComplete(0);
      ReserveFacts(free, start, end);
      ReserveOnAllLists(start, end);
      MarkReserved(start, end, true);
      held := held + Range(start, end);
    }

    /** unreserve_range: the range, which must be neither free nor handed out, becomes free again. */
    method UnreserveRange(start: nat, npages: nat)
      requires Valid()
      requires npages > 0 ==> 1 <= start && start + npages <= Limit()
      requires forall p :: Within(p, start, start + npages) ==> p !in free && p !in used
      modifies freeLists, next, prev, orderMap, reserved, this`lists, this`free, this`held
      ensures Valid()
      ensures free == old(free) + GreedyCover(start, start + npages)
      ensures lists == PushBlocks(old(lists), Greedy(start, start + npages))
      ensures free.Keys == old(free).Keys + Range(start, start + npages)
      ensures held == old(held) - Range(start, start + npages)
      ensures Runs.Step(old(Pages()), Runs.Unreserve(start, start + npages), Pages())
    {
      hide Holds, Labelled, GreedyCover, Pow2, PushBlocks, Greedy;
      GreedyTiles(start, start + npages);
      MarkReserved(start, start + npages, false);
      PushFreeRange(start, npages);
      held := held - Range(start, start + npages);
    }

    // ----- draining

    lemma FreeIsListed(p: nat)
      requires Structured() && p in free
      ensures exists o :: 0 <= o <= MAX_ORDER && lists[o] != []
    {
      assert PageListed(lists, free[p], p, Limit());
    }

    lemma NothingListed()
      requires Structured() && FirstNonEmpty(lists, 0) > MAX_ORDER
      ensures free == map[]
    {
      hide Holds;
      if p :| p in free {
        FreeIsListed(p);
      }
    }

    lemma OnePage(page: nat)
      ensures Runs.BlockPages(page, 0) == {page} && Cover(Block(page, 0)).Keys == {page}
    {
      assert forall p :: In(p, Block(page, 0)) <==> p == page;
    }

    /** A single-page allocation: some free page that is not reserved, or nothing is free. */
    method AllocPage() returns (r: Option<nat>, page: nat)
      requires Valid() && initialized
      modifies freeLists, next, prev, orderMap, this`lists, this`free, this`used
      ensures Valid()
      ensures r.None? ==> free == old(free) == map[] && used == old(used)
      ensures r.Some? ==>
        && page in old(free) && page !in held && (page < totalPages ==> !reserved[page])
        && free.Keys == old(free).Keys - {page}
        && used.Keys == old(used).Keys + {page}
    {
      hide Holds, Labelled, SplitLists, SplitLabels, BlockLabels, UsedLabel, AllocPages, FirstNonEmpty;
      r := AllocOrder(0);
      if r.None? {
        NothingListed();
        page := 0;
      } else {
        page := r.value / PAGE_SIZE;
        OnePage(page);
      }
    }

    lemma FreeNotReserved()
      requires Valid()
      ensures forall p :: p in free ==> p !in held && (p < totalPages ==> !reserved[p])
    {
    }

    method DrainLoop() returns (pages: seq<nat>)
      requires Valid() && initialized
      modifies freeLists, next, prev, orderMap, this`lists, this`free, this`used
      ensures Valid() && free == map[]
      ensures Drained(old(free).Keys, old(used).Keys, {}, used.Keys, pages)
    {
      hide Structured, Labelled, Bookkept, Drained, Pow2;
      ghost var all, used0 := free.Keys, used.Keys;
      pages := [];
      DrainStart(all, used0);
      var more := true;
      while more
        invariant Valid() && initialized
        invariant Drained(all, used0, free.Keys, used.Keys, pages)
        invariant !more ==> free == map[]
        decreases |free.Keys|, more
      {
        ghost var free', used' := free.Keys, used.Keys;
        var r, page := AllocPage();
        if r.None? {
          more := false;
        } else {
          DrainStep(all, used0, free', used', pages, page);
          pages := pages + [page];
        }
      }
    }

    /** Allocating single pages until none is left hands out every free page exactly once, and no reserved one. */
    method Drain() returns (pages: seq<nat>)
      requires Valid() && initialized
      modifies freeLists, next, prev, orderMap, this`lists, this`free, this`used
      ensures Valid() && free == map[]
      ensures |pages| == |old(free)|
      ensures forall p :: p in pages <==> p in old(free)
      ensures forall p :: p in pages ==> p !in held && (p < totalPages ==> !reserved[p])
      ensures used.Keys == old(used).Keys + old(free).Keys
    {
      hide Structured, Labelled, Bookkept, Drained;
      FreeNotReserved();
      ghost var all, used0 := free.Keys, used.Keys;
      pages := DrainLoop();
      DrainEnd(all, used0, used.Keys, pages);
    }
  }
}
