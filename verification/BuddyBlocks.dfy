/** Buddy blocks as values: the pages of a block, and how a range is cut into naturally aligned blocks. */
module BuddyBlocks {
  import opened Bits

  const MAX_ORDER: nat := 10
  const PAGE_SIZE: nat := 4096

  /** A block of 2^order pages starting at page `head`. */
  datatype Block = Block(head: nat, order: nat) {
    function End(): nat {
      head + Pow2(order)
    }
  }

  predicate In(p: nat, b: Block) {
    b.head <= p < b.End()
  }

  predicate Overlaps(b: Block, start: nat, end: nat) {
    b.head < end && b.End() > start
  }

  predicate Aligned(b: Block) {
    LowBitsZero(b.head, b.order)
  }

  /** Page ownership: which block a page belongs to. */
  type PageMap = map<nat, Block>

  function Cover(b: Block): (m: PageMap)
    ensures forall p: nat :: p in m <==> In(p, b)
    ensures forall p: nat :: p in m ==> m[p] == b
  {
    map p: nat | b.head <= p < b.End() && In(p, b) :: b
  }

  predicate Within(p: nat, start: nat, end: nat) {
    start <= p < end
  }

  function Range(start: nat, end: nat): (s: set<nat>)
    ensures forall p: nat :: p in s <==> Within(p, start, end)
  {
    set p: nat | start <= p < end && Within(p, start, end)
  }

  // ----- the block size chosen by push_free_range

  /** `order` may head a block at `cur` when `remaining` pages are left. */
  predicate Permitted(cur: nat, remaining: nat, order: nat) {
    order <= MAX_ORDER && LowBitsZero(cur, order) && Pow2(order) <= remaining
  }

  predicate IsBestOrder(cur: nat, remaining: nat, order: nat) {
    && Permitted(cur, remaining, order)
    && forall o :: order < o <= MAX_ORDER ==> !Permitted(cur, remaining, o)
  }

  lemma {:induction false} BestOrderExists(cur: nat, remaining: nat, from: nat)
    requires remaining > 0 && from <= MAX_ORDER
    requires forall x :: from < x <= MAX_ORDER ==> !Permitted(cur, remaining, x)
    ensures exists o :: IsBestOrder(cur, remaining, o)
    decreases from
  {
    if Permitted(cur, remaining, from) || from == 0 {
      assert IsBestOrder(cur, remaining, from);
    } else {
      BestOrderExists(cur, remaining, from - 1);
    }
  }

  /** The one order that is permitted and not exceeded by another permitted order. */
  ghost function BestOrder(cur: nat, remaining: nat): (o: nat)
    requires remaining > 0
    ensures IsBestOrder(cur, remaining, o)
  {
    BestOrderExists(cur, remaining, MAX_ORDER);
    var o :| IsBestOrder(cur, remaining, o);
    o
  }

  lemma BestOrderUnique(cur: nat, remaining: nat, a: nat, b: nat)
    requires IsBestOrder(cur, remaining, a) && IsBestOrder(cur, remaining, b)
    ensures a == b
  {
  }

  method IsMultiple(cur: nat, order: nat) returns (b: bool)
    ensures b <==> LowBitsZero(cur, order)
  {
    MultipleOfPow2(cur, order);
    b := cur % Pow2(order) == 0;
  }

  /** The order search of push_free_range: downwards from the highest set bit of `remaining`. */
  method ChooseOrder(cur: nat, remaining: nat) returns (order: nat)
    requires remaining > 0
    ensures IsBestOrder(cur, remaining, order)
    ensures order <= MAX_ORDER && Pow2(order) <= remaining
  {
    var top := FloorLog2(remaining);
    order := if top < MAX_ORDER then top else MAX_ORDER;
    forall o | order < o <= MAX_ORDER
      ensures !Permitted(cur, remaining, o)
    {
      AboveTopBit(remaining, o);
    }
    while order > 0
      invariant order <= MAX_ORDER
      invariant forall o :: order < o <= MAX_ORDER ==> !Permitted(cur, remaining, o)
    {
      var size := Pow2(order);
      var multiple := IsMultiple(cur, order);
      if multiple && size <= remaining {
        break;
      }
      order := order - 1;
    }
  }

  /** Orders above the highest set bit of `remaining` are never permitted. */
  lemma AboveTopBit(remaining: nat, o: nat)
    requires remaining > 0 && o > FloorLog2(remaining)
    ensures Pow2(o) > remaining
  {
    Pow2Monotone(FloorLog2(remaining) + 1, o);
  }

  // ----- the greedy cut of a range

  ghost function Greedy(cur: nat, end: nat): (bs: seq<Block>)
    requires cur <= end
    decreases end - cur
  {
    if cur == end then []
    else
      var b := Block(cur, BestOrder(cur, end - cur));
      [b] + Greedy(b.End(), end)
  }

  ghost function GreedyCover(cur: nat, end: nat): (m: PageMap)
    requires cur <= end
    decreases end - cur
  {
    if cur == end then map[]
    else
      var b := Block(cur, BestOrder(cur, end - cur));
      Cover(b) + GreedyCover(b.End(), end)
  }

  /** `bs` lists blocks that follow each other without gap from `start` to `end`. */
  predicate Tiles(bs: seq<Block>, start: nat, end: nat)
    decreases |bs|
  {
    if bs == [] then start == end
    else bs[0].head == start && Tiles(bs[1..], bs[0].End(), end)
  }

  ghost predicate OwnsAll(m: PageMap, b: Block) {
    forall q: nat :: In(q, b) ==> q in m && m[q] == b
  }

  /** A block map in which every page of every block is present and owned by that block. */
  ghost predicate WholeBlocks(m: PageMap) {
    forall p :: p in m ==> In(p, m[p]) && OwnsAll(m, m[p])
  }

  /** A block of [.., end) that is the largest its position allows. */
  ghost predicate BestBlock(b: Block, end: nat) {
    b.End() <= end && IsBestOrder(b.head, end - b.head, b.order)
  }

  /** The greedy cut tiles the range exactly. */
  lemma {:induction false} GreedyTiles(cur: nat, end: nat)
    requires cur <= end
    ensures Tiles(Greedy(cur, end), cur, end)
    ensures GreedyCover(cur, end).Keys == Range(cur, end)
    decreases end - cur
  {
    if cur < end {
      GreedyTiles(cur + Pow2(BestOrder(cur, end - cur)), end);
    }
  }

  /** Every greedy block lies in the range and is the largest one its position allows. */
  lemma {:induction false} GreedyBest(cur: nat, end: nat, p: nat)
    requires cur <= end && p in GreedyCover(cur, end)
    ensures cur <= GreedyCover(cur, end)[p].head && In(p, GreedyCover(cur, end)[p])
    ensures BestBlock(GreedyCover(cur, end)[p], end)
    decreases end - cur
  {
    var b := Block(cur, BestOrder(cur, end - cur));
    if p in GreedyCover(b.End(), end) {
      GreedyBest(b.End(), end, p);
    }
  }

  /** Greedy blocks are whole: all pages of a block are owned by it. */
  lemma {:induction false} GreedyWhole(cur: nat, end: nat, p: nat)
    requires cur <= end && p in GreedyCover(cur, end)
    ensures OwnsAll(GreedyCover(cur, end), GreedyCover(cur, end)[p])
    decreases end - cur
  {
    var b := Block(cur, BestOrder(cur, end - cur));
    GreedyTiles(b.End(), end);
    if p in GreedyCover(b.End(), end) {
      GreedyWhole(b.End(), end, p);
    }
  }

  lemma GreedyAllBest(cur: nat, end: nat)
    requires cur <= end
    ensures forall p :: p in GreedyCover(cur, end) ==>
      cur <= GreedyCover(cur, end)[p].head && BestBlock(GreedyCover(cur, end)[p], end)
  {
    forall p | p in GreedyCover(cur, end)
      ensures cur <= GreedyCover(cur, end)[p].head && BestBlock(GreedyCover(cur, end)[p], end)
    {
      GreedyBest(cur, end, p);
    }
  }

  lemma GreedyAllWhole(cur: nat, end: nat)
    requires cur <= end
    ensures WholeBlocks(GreedyCover(cur, end))
  {
    forall p | p in GreedyCover(cur, end)
      ensures In(p, GreedyCover(cur, end)[p]) && OwnsAll(GreedyCover(cur, end), GreedyCover(cur, end)[p])
    {
      GreedyBest(cur, end, p);
      GreedyWhole(cur, end, p);
    }
  }

  /** The list and the map of the greedy cut name the same blocks. */
  lemma {:induction false} GreedyMapsBlocks(cur: nat, end: nat, b: Block)
    requires cur <= end
    ensures b in Greedy(cur, end) <==> b.head in GreedyCover(cur, end) && GreedyCover(cur, end)[b.head] == b
    decreases end - cur
  {
    if cur < end {
      var first := Block(cur, BestOrder(cur, end - cur));
      GreedyMapsBlocks(first.End(), end, b);
      GreedyTiles(first.End(), end);
    }
  }

  // ----- the greedy cut is the coarsest one

  /** Where a tiling by aligned blocks passes the end of a best block it has a block boundary. */
  lemma {:induction false} BoundaryAtBestEnd(bs: seq<Block>, at: nat, start: nat, end: nat, o: nat) returns (k: nat)
    requires start <= at < start + Pow2(o) <= end
    requires IsBestOrder(start, end - start, o)
    requires Tiles(bs, at, end)
    requires forall b :: b in bs ==> Aligned(b) && b.order <= MAX_ORDER
    ensures 1 <= k <= |bs|
    ensures Tiles(bs[k..], start + Pow2(o), end)
    decreases |bs|
  {
    var b := bs[0];
    assert b in bs;
    TilesReach(bs[1..], b.End(), end);
    MultipleOfPow2(b.head, b.order);
    MultipleOfPow2(start, o);
    if b.order > o {
      AlignedDown(b.head, o, b.order);
      if start < b.head {
        MultiplesApart(start, b.head, Pow2(o));
      }
      assert Permitted(start, end - start, b.order);
      assert false;
    }
    BlockInsideAlignedRange(b, start, o);
    if b.End() == start + Pow2(o) {
      k := 1;
    } else {
      assert forall c :: c in bs[1..] ==> c in bs;
      k := BoundaryAtBestEnd(bs[1..], b.End(), start, end, o);
      assert bs[1..][k..] == bs[k + 1..];
      k := k + 1;
    }
  }

  /** An aligned block heading a page of an aligned range that is no smaller ends inside it. */
  lemma BlockInsideAlignedRange(b: Block, start: nat, o: nat)
    requires b.order <= o
    requires b.head % Pow2(b.order) == 0 && start % Pow2(o) == 0
    requires b.head < start + Pow2(o)
    ensures b.End() <= start + Pow2(o)
  {
    AlignedDown(start, b.order, o);
    Pow2Multiple(b.order, o);
    SumAligned(start, Pow2(o), Pow2(b.order));
    MultiplesApart(b.head, start + Pow2(o), Pow2(b.order));
  }

  lemma Pow2Multiple(a: nat, b: nat)
    requires a <= b
    ensures Pow2(b) % Pow2(a) == 0
  {
    var k := Pow2Factor(a, b);
    MultipleMod(k, Pow2(a));
  }

  lemma {:induction false} TilesReach(bs: seq<Block>, start: nat, end: nat)
    requires Tiles(bs, start, end)
    ensures start <= end
    decreases |bs|
  {
    if bs != [] {
      TilesReach(bs[1..], bs[0].End(), end);
    }
  }

  /** No cut of a range into aligned buddy blocks has fewer blocks than the greedy one. */
  lemma {:induction false} GreedyIsCoarsest(bs: seq<Block>, start: nat, end: nat)
    requires start <= end && Tiles(bs, start, end)
    requires forall b :: b in bs ==> Aligned(b) && b.order <= MAX_ORDER
    ensures |Greedy(start, end)| <= |bs|
    decreases end - start
  {
    if start < end {
      var o := BestOrder(start, end - start);
      var k := BoundaryAtBestEnd(bs, start, start, end, o);
      assert forall b :: b in bs[k..] ==> b in bs;
      GreedyIsCoarsest(bs[k..], start + Pow2(o), end);
    }
  }
}
