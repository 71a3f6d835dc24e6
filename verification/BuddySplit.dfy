/** Splitting a block on allocation and cutting blocks on reservation, as functions on page ownership. */
module BuddySplit {
  import opened Bits
  import opened BuddyBlocks
  import opened BuddyLists

  // ----- splitting

  /** The buddy split off a block at `page` that holds page p: the one whose size is the top bit of p - page. */
  function BuddyAt(page: nat, p: nat): Block
    requires page < p
  {
    Block(page + Pow2(FloorLog2(p - page)), FloorLog2(p - page))
  }

  lemma FloorLog2Unique(n: nat, c: nat)
    requires n > 0 && Pow2(c) <= n < Pow2(c + 1)
    ensures FloorLog2(n) == c
  {
    if FloorLog2(n) < c {
      Pow2Monotone(FloorLog2(n) + 1, c);
    } else if c < FloorLog2(n) {
      Pow2Monotone(c + 1, FloorLog2(n));
    }
  }

  /** The free pages after pushing the buddies of orders cur - 1 down to `order`. */
  ghost function SplitFree(free: PageMap, page: nat, order: nat, cur: nat): PageMap
    requires order <= cur
    decreases cur
  {
    if cur == order then free
    else SplitFree(free + Cover(Block(page + Pow2(cur - 1), cur - 1)), page, order, cur - 1)
  }

  /** The buddies tile what the allocated block leaves of the split one. */
  lemma {:induction false} SplitFreeAt(free: PageMap, page: nat, order: nat, cur: nat, p: nat)
    requires order <= cur
    ensures Pow2(order) <= Pow2(cur)
    ensures Within(p, page + Pow2(order), page + Pow2(cur)) ==>
      p in SplitFree(free, page, order, cur) && SplitFree(free, page, order, cur)[p] == BuddyAt(page, p)
    ensures !Within(p, page + Pow2(order), page + Pow2(cur)) ==>
      (p in SplitFree(free, page, order, cur) <==> p in free)
    ensures !Within(p, page + Pow2(order), page + Pow2(cur)) && p in free ==>
      SplitFree(free, page, order, cur)[p] == free[p]
    decreases cur
  {
    if order < cur {
      var b := Block(page + Pow2(cur - 1), cur - 1);
      SplitFreeAt(free + Cover(b), page, order, cur - 1, p);
      if In(p, b) {
        FloorLog2Unique(p - page, cur - 1);
      }
    }
  }

  /** Ownership after allocating 2^order pages from the front of the block of order `found` at `page`. */
  ghost function AllocPages(free: PageMap, page: nat, order: nat, found: nat): (m: PageMap)
    ensures m.Keys == free.Keys - Cover(Block(page, order)).Keys
  {
    map p | p in free && !In(p, Block(page, order)) ::
      if In(p, Block(page, found)) then BuddyAt(page, p) else free[p]
  }

  lemma SplitIsAllocPages(free: PageMap, page: nat, order: nat, found: nat)
    requires order <= found && OwnsAll(free, Block(page, found))
    ensures SplitFree(Without(free, Block(page, found)), page, order, found) == AllocPages(free, page, order, found)
  {
    var rest := Without(free, Block(page, found));
    forall p: nat
      ensures p in SplitFree(rest, page, order, found) <==> p in AllocPages(free, page, order, found)
      ensures p in AllocPages(free, page, order, found) ==>
        SplitFree(rest, page, order, found)[p] == AllocPages(free, page, order, found)[p]
    {
      SplitFreeAt(rest, page, order, found, p);
    }
  }

  function SplitLists(lists: Lists, page: nat, order: nat, found: nat): (r: Lists)
    requires found < |lists|
    ensures |r| == |lists|
  {
    seq(|lists|, (o: int) requires 0 <= o < |lists| =>
      if order <= o < found then [page + Pow2(o)] + lists[o] else lists[o])
  }

  lemma SplitListsStep(lists: Lists, page: nat, cur: nat, found: nat)
    requires cur < found < |lists|
    ensures PushList(SplitLists(lists, page, cur + 1, found), page + Pow2(cur), cur)
      == SplitLists(lists, page, cur, found)
  {
    var before, after := SplitLists(lists, page, cur + 1, found), SplitLists(lists, page, cur, found);
    assert before[cur] == lists[cur] && after[cur] == [page + Pow2(cur)] + lists[cur];
    assert forall o :: 0 <= o < |lists| && o != cur ==> before[o] == after[o];
    hide SplitLists, Pow2;
  }

  lemma SplitListsNone(lists: Lists, page: nat, found: nat)
    requires found < |lists|
    ensures SplitLists(lists, page, found, found) == lists
  {
  }

  lemma SplitFreeStep(free: PageMap, page: nat, order: nat, cur: nat)
    requires order <= cur
    ensures SplitFree(free, page, order, cur + 1)
      == SplitFree(free + Cover(Block(page + Pow2(cur), cur)), page, order, cur)
    ensures SplitFree(free, page, order, order) == free
  {
  }

  // ----- labels

  const INTERIOR_FREE: nat := 0xFE

  function FreeLabel(b: Block, p: nat): nat {
    if p == b.head then b.order else INTERIOR_FREE
  }

  function LabelAt(page: nat, lo: nat, hi: nat, p: nat, was: nat): nat {
    if page + Pow2(lo) <= p < page + Pow2(hi) then FreeLabel(BuddyAt(page, p), p) else was
  }

  /** The labels after the buddies of orders lo up to hi of the block at `page` are pushed. */
  function SplitLabels(labels: seq<nat>, page: nat, lo: nat, hi: nat): (r: seq<nat>)
    ensures |r| == |labels| && forall p :: 0 <= p < |labels| ==> r[p] == LabelAt(page, lo, hi, p, labels[p])
  {
    seq(|labels|, (p: int) requires 0 <= p < |labels| => LabelAt(page, lo, hi, p, labels[p]))
  }

  /** The labels after the pages of b are labelled by f. */
  function BlockLabels(labels: seq<nat>, b: Block, f: (Block, nat) -> nat): (r: seq<nat>)
    ensures |r| == |labels| && forall p :: 0 <= p < |labels| ==> r[p] == if In(p, b) then f(b, p) else labels[p]
  {
    seq(|labels|, (p: int) requires 0 <= p < |labels| => if In(p, b) then f(b, p) else labels[p])
  }

  lemma SplitLabelsNone(labels: seq<nat>, page: nat, hi: nat)
    ensures SplitLabels(labels, page, hi, hi) == labels
  {
  }

  lemma LabelAtStep(page: nat, cur: nat, hi: nat, p: nat, was: nat)
    requires cur < hi
    ensures LabelAt(page, cur, hi, p, was) ==
      if In(p, Block(page + Pow2(cur), cur)) then FreeLabel(Block(page + Pow2(cur), cur), p)
      else LabelAt(page, cur + 1, hi, p, was)
  {
    Pow2Monotone(cur + 1, hi);
    if In(p, Block(page + Pow2(cur), cur)) {
      FloorLog2Unique(p - page, cur);
    }
  }

  lemma SplitLabelsStep(labels: seq<nat>, page: nat, cur: nat, hi: nat)
    requires cur < hi
    ensures BlockLabels(SplitLabels(labels, page, cur + 1, hi), Block(page + Pow2(cur), cur), FreeLabel)
      == SplitLabels(labels, page, cur, hi)
  {
    forall p | 0 <= p < |labels|
      ensures LabelAt(page, cur, hi, p, labels[p]) ==
        if In(p, Block(page + Pow2(cur), cur)) then FreeLabel(Block(page + Pow2(cur), cur), p)
        else LabelAt(page, cur + 1, hi, p, labels[p])
    {
      LabelAtStep(page, cur, hi, p, labels[p]);
    }
    hide LabelAt, FreeLabel, In;
  }

  // ----- alignment

  ghost predicate AllAligned(m: PageMap) {
    forall p :: p in m ==> Aligned(m[p])
  }

  lemma BuddyAligned(page: nat, c: nat, found: nat)
    requires LowBitsZero(page, found) && c < found
    ensures Aligned(Block(page + Pow2(c), c))
  {
    MultipleOfPow2(page, found);
    AlignedDown(page, c, found);
    Pow2Multiple(c, c);
    SumAligned(page, Pow2(c), Pow2(c));
    MultipleOfPow2(page + Pow2(c), c);
  }

  /** Splitting keeps natural alignment. */
  lemma AllocKeepsAlignment(free: PageMap, page: nat, order: nat, found: nat)
    requires AllAligned(free) && order <= found && page in free && free[page] == Block(page, found)
    ensures AllAligned(AllocPages(free, page, order, found))
  {
    var m := AllocPages(free, page, order, found);
    forall p | p in m
      ensures Aligned(m[p])
    {
      if In(p, Block(page, found)) {
        var c := FloorLog2(p - page);
        if found <= c {
          Pow2Monotone(found, c);
          assert false;
        }
        BuddyAligned(page, c, found);
      }
    }
  }

  /** Whatever the state before, the blocks pushed for a range are naturally aligned. */
  lemma GreedyAligned(start: nat, end: nat)
    requires start <= end
    ensures AllAligned(GreedyCover(start, end))
  {
    GreedyAllBest(start, end);
  }

  // ----- reserving

  /** What reserving [start, end) leaves of a block that overlaps it, cut into aligned blocks again. */
  ghost function Remnant(b: Block, start: nat, end: nat): PageMap
    requires start <= end && Overlaps(b, start, end)
  {
    LeftRemnant(b, start) + RightRemnant(b, end)
  }

  ghost function LeftRemnant(b: Block, start: nat): PageMap {
    if b.head < start then GreedyCover(b.head, start) else map[]
  }

  ghost function RightRemnant(b: Block, end: nat): PageMap {
    if end < b.End() then GreedyCover(end, b.End()) else map[]
  }

  /** The remnant is exactly the unreserved pages, in whole aligned blocks of strictly lower order. */
  lemma RemnantFacts(b: Block, start: nat, end: nat)
    requires start <= end && Overlaps(b, start, end)
    ensures forall p :: p in Remnant(b, start, end) <==> In(p, b) && !Within(p, start, end)
    ensures WholeBlocks(Remnant(b, start, end)) && AllAligned(Remnant(b, start, end))
    ensures forall p :: p in Remnant(b, start, end) ==> Remnant(b, start, end)[p].order < b.order
  {
    PieceFacts(b.head, start, b.order);
    PieceFacts(end, b.End(), b.order);
    hide GreedyCover, WholeBlocks, Aligned;
    WholeBlocksAdd(LeftRemnant(b, start), RightRemnant(b, end)) by {
      EmptyWhole();
    }
  }

  /** Adding the remnant is adding its left part and then its right part. */
  lemma RemnantParts(kept: PageMap, b: Block, start: nat, end: nat)
    requires start <= end && Overlaps(b, start, end)
    ensures kept + Remnant(b, start, end) == kept + LeftRemnant(b, start) + RightRemnant(b, end)
    ensures start <= b.head ==> kept + LeftRemnant(b, start) == kept
    ensures b.End() <= end ==> kept + LeftRemnant(b, start) + RightRemnant(b, end) == kept + LeftRemnant(b, start)
    ensures forall p :: p in LeftRemnant(b, start) ==> p < start && In(p, b)
    ensures forall p :: p in RightRemnant(b, end) ==> In(p, b)
  {
    PieceFacts(b.head, start, b.order);
    PieceFacts(end, b.End(), b.order);
    hide GreedyCover;
  }

  lemma EmptyWhole()
    ensures WholeBlocks(map[])
  {
  }

  lemma PieceFacts(start: nat, end: nat, order: nat)
    ensures start <= end ==> GreedyCover(start, end).Keys == Range(start, end)
    ensures start <= end ==> WholeBlocks(GreedyCover(start, end)) && AllAligned(GreedyCover(start, end))
    ensures start <= end && end - start < Pow2(order) ==>
      forall p :: p in GreedyCover(start, end) ==> GreedyCover(start, end)[p].order < order
  {
    if start <= end {
      GreedyTiles(start, end);
      GreedyAllWhole(start, end);
      GreedyAligned(start, end);
      if end - start < Pow2(order) {
        GreedyOrders(start, end, order);
      }
    }
  }

  /** Pieces shorter than a block have a strictly lower order. */
  lemma GreedyOrders(start: nat, end: nat, order: nat)
    requires start <= end && end - start < Pow2(order)
    ensures forall p :: p in GreedyCover(start, end) ==> GreedyCover(start, end)[p].order < order
  {
    GreedyAllBest(start, end);
    forall p | p in GreedyCover(start, end)
      ensures GreedyCover(start, end)[p].order < order
    {
      var o := GreedyCover(start, end)[p].order;
      if order <= o { Pow2Monotone(order, o); }
    }
  }

  /** The walk is past block b: b has a lower order, or the current order and is not among the pages left. */
  predicate Passed(b: Block, order: nat, left: seq<nat>) {
    b.order < order || (b.order == order && b.head !in left)
  }

  /** Ownership while reserve_range walks the list of `order` with the pages `left` still to visit. */
  ghost function CutPages(free: PageMap, order: nat, left: seq<nat>, start: nat, end: nat): (m: PageMap)
    requires start <= end
  {
    map p | p in free && !(Passed(free[p], order, left) && Overlaps(free[p], start, end) && Within(p, start, end)) ::
      if Passed(free[p], order, left) && Overlaps(free[p], start, end) then RemnantAt(free[p], start, end, p)
      else free[p]
  }

  ghost function RemnantAt(b: Block, start: nat, end: nat, p: nat): Block
    requires start <= end && Overlaps(b, start, end)
  {
    if p in Remnant(b, start, end) then Remnant(b, start, end)[p] else b
  }

  /** Ownership after reserving [start, end): its pages are gone, overlapped blocks are cut, the others stay. */
  ghost function ReservePages(free: PageMap, start: nat, end: nat): (m: PageMap)
    requires start <= end
  {
    map p | p in free && !Within(p, start, end) ::
      if Overlaps(free[p], start, end) then RemnantAt(free[p], start, end, p) else free[p]
  }

  lemma PassedStep(free: PageMap, order: nat, left: seq<nat>, b: Block, p: nat)
    requires WholeBlocks(free) && p in free
    requires b.order == order && b.head in free && free[b.head] == b && b.head !in left
    ensures In(p, b) <==> free[p] == b
    ensures Passed(free[p], order, left) <==> free[p] == b || Passed(free[p], order, [b.head] + left)
  {
    var before := [b.head] + left;
    assert forall h :: h in before <==> h == b.head || h in left;
    assert In(p, free[p]) && OwnsAll(free, b);
    if free[p].head == b.head {
      assert OwnsAll(free, free[p]);
      assert In(b.head, b) && In(b.head, free[p]);
    }
  }

  /** Visiting one more block changes nothing when it does not overlap the range. */
  lemma CutStepOver(free: PageMap, order: nat, left: seq<nat>, b: Block, start: nat, end: nat)
    requires start <= end && WholeBlocks(free) && !Overlaps(b, start, end)
    requires b.order == order && b.head in free && free[b.head] == b && b.head !in left
    ensures CutPages(free, order, left, start, end) == CutPages(free, order, [b.head] + left, start, end)
  {
    forall p | p in free
      ensures Passed(free[p], order, left) <==> free[p] == b || Passed(free[p], order, [b.head] + left)
    {
      PassedStep(free, order, left, b, p);
    }
    hide RemnantAt, WholeBlocks, Passed;
  }

  lemma CutPageAt(free: PageMap, order: nat, left: seq<nat>, b: Block, start: nat, end: nat, p: nat)
    requires start <= end && WholeBlocks(free) && Overlaps(b, start, end)
    requires b.order == order && b.head in free && free[b.head] == b && b.head !in left
    ensures var m := Without(CutPages(free, order, [b.head] + left, start, end), b) + Remnant(b, start, end);
      && (p in CutPages(free, order, left, start, end) <==> p in m)
      && (p in m ==> CutPages(free, order, left, start, end)[p] == m[p])
  {
    RemnantFacts(b, start, end);
    if p in free {
      PassedStep(free, order, left, b, p);
    } else {
      assert OwnsAll(free, b);
    }
    hide Remnant, WholeBlocks, Passed, AllAligned;
  }

  /** Visiting one more block that overlaps the range replaces it by its remnant. */
  lemma CutStepInto(free: PageMap, order: nat, left: seq<nat>, b: Block, start: nat, end: nat)
    requires start <= end && WholeBlocks(free) && Overlaps(b, start, end)
    requires b.order == order && b.head in free && free[b.head] == b && b.head !in left
    ensures CutPages(free, order, left, start, end)
      == Without(CutPages(free, order, [b.head] + left, start, end), b) + Remnant(b, start, end)
  {
    hide *;
    var m := Without(CutPages(free, order, [b.head] + left, start, end), b) + Remnant(b, start, end);
    forall p: nat
      ensures p in CutPages(free, order, left, start, end) <==> p in m
      ensures p in m ==> CutPages(free, order, left, start, end)[p] == m[p]
    {
      CutPageAt(free, order, left, b, start, end, p);
    }
  }

  /** A block found on the list being walked is an original block, because cut pieces have lower order. */
  lemma WalkedBlockIsOriginal(free: PageMap, order: nat, left: seq<nat>, start: nat, end: nat, b: Block)
    requires start <= end && b.order == order
    requires b.head in CutPages(free, order, left, start, end)
    requires CutPages(free, order, left, start, end)[b.head] == b
    ensures b.head in free && free[b.head] == b
  {
    var c := free[b.head];
    if Passed(c, order, left) && Overlaps(c, start, end) {
      RemnantFacts(c, start, end);
      hide Remnant;
    }
  }

  /** Before the list of an order is walked all its original blocks are still on it. */
  lemma CutNextOrder(free: PageMap, order: nat, left: seq<nat>, start: nat, end: nat)
    requires start <= end
    requires forall p :: p in free && free[p].order == order + 1 ==> free[p].head in left
    ensures CutPages(free, order, [], start, end) == CutPages(free, order + 1, left, start, end)
  {
    hide RemnantAt;
  }

  lemma CutStart(free: PageMap, left: seq<nat>, start: nat, end: nat)
    requires start <= end
    requires forall p :: p in free && free[p].order == 0 ==> free[p].head in left
    ensures CutPages(free, 0, left, start, end) == free
  {
    hide RemnantAt;
  }

  lemma CutDone(free: PageMap, start: nat, end: nat)
    requires start <= end && WholeBlocks(free)
    requires forall p :: p in free ==> free[p].order <= MAX_ORDER
    ensures CutPages(free, MAX_ORDER, [], start, end) == ReservePages(free, start, end)
  {
    hide RemnantAt;
  }

  /** Blocks of a later order are untouched so far. */
  lemma CutKeepsLater(free: PageMap, order: nat, start: nat, end: nat, p: nat)
    requires start <= end && p in free && free[p].order > order
    ensures p in CutPages(free, order, [], start, end) && CutPages(free, order, [], start, end)[p] == free[p]
  {
    hide RemnantAt;
  }

  /** Reservation removes exactly the range, and keeps blocks whole, disjoint and aligned. */
  lemma ReserveFacts(free: PageMap, start: nat, end: nat)
    requires start <= end && WholeBlocks(free)
    ensures ReservePages(free, start, end).Keys == free.Keys - Range(start, end)
    ensures WholeBlocks(ReservePages(free, start, end))
    ensures AllAligned(free) ==> AllAligned(ReservePages(free, start, end))
    ensures forall p :: p in ReservePages(free, start, end) ==>
      !exists q :: In(q, ReservePages(free, start, end)[p]) && Within(q, start, end)
  {
    var m := ReservePages(free, start, end);
    forall p | p in m
      ensures In(p, m[p]) && OwnsAll(m, m[p]) && (AllAligned(free) ==> Aligned(m[p]))
      ensures !exists q :: In(q, m[p]) && Within(q, start, end)
    {
      ReserveBlockWhole(free, start, end, p);
    }
  }

  lemma ReserveBlockWhole(free: PageMap, start: nat, end: nat, p: nat)
    requires start <= end && WholeBlocks(free) && p in ReservePages(free, start, end)
    ensures var m := ReservePages(free, start, end);
      && In(p, m[p]) && OwnsAll(m, m[p])
      && (AllAligned(free) ==> Aligned(m[p]))
      && !exists q :: In(q, m[p]) && Within(q, start, end)
  {
    var m, b := ReservePages(free, start, end), free[p];
    assert In(p, b) && OwnsAll(free, b);
    if Overlaps(b, start, end) {
      RemnantFacts(b, start, end);
      assert OwnsAll(Remnant(b, start, end), m[p]);
    }
  }
}
