/** The free lists after ranges are pushed and reserved, list by list and in order. */
module BuddyReserve {
  import opened Bits
  import opened Sequences
  import opened BuddyBlocks
  import opened BuddyLists
  import opened BuddySplit

  // ----- pushing blocks

  /** The lists after the blocks were pushed one after the other. */
  function PushBlocks(lists: Lists, bs: seq<Block>): (r: Lists)
    ensures |r| == |lists|
    decreases |bs|
  {
    if bs == [] then lists
    else PushBlocks(if bs[0].order < |lists| then PushList(lists, bs[0].head, bs[0].order) else lists, bs[1..])
  }

  lemma {:induction false} PushBlocksConcat(lists: Lists, a: seq<Block>, b: seq<Block>)
    ensures PushBlocks(lists, a + b) == PushBlocks(PushBlocks(lists, a), b)
    decreases |a|
  {
    hide PushList;
    if a == [] {
      assert a + b == b;
    } else {
      assert (a + b)[1..] == a[1..] + b;
      PushBlocksConcat(if a[0].order < |lists| then PushList(lists, a[0].head, a[0].order) else lists, a[1..], b);
    }
  }

  /** The heads of the blocks of one order, the last pushed first. */
  function HeadsOf(bs: seq<Block>, o: nat): seq<nat>
    decreases |bs|
  {
    if bs == [] then [] else HeadsOf(bs[1..], o) + if bs[0].order == o then [bs[0].head] else []
  }

  /** Each list is the pushed blocks of its order, the last pushed first, in front of what it was. */
  lemma {:induction false} PushBlocksAt(lists: Lists, bs: seq<Block>, o: nat)
    requires o < |lists|
    ensures PushBlocks(lists, bs)[o] == HeadsOf(bs, o) + lists[o]
    decreases |bs|
  {
    if bs != [] {
      PushBlocksAt(if bs[0].order < |lists| then PushList(lists, bs[0].head, bs[0].order) else lists, bs[1..], o);
    }
  }

  lemma {:induction false} HeadsOfConcat(a: seq<Block>, b: seq<Block>, o: nat)
    ensures HeadsOf(a + b, o) == HeadsOf(b, o) + HeadsOf(a, o)
    decreases |a|
  {
    if a == [] {
      assert a + b == b;
    } else {
      assert (a + b)[1..] == a[1..] + b;
      HeadsOfConcat(a[1..], b, o);
    }
  }

  /** One turn of push_free_range. */
  lemma GreedyStep(lists: Lists, cur: nat, end: nat, order: nat)
    requires cur < end && IsBestOrder(cur, end - cur, order) && order < |lists|
    ensures cur + Pow2(order) <= end
    ensures PushBlocks(lists, Greedy(cur, end))
      == PushBlocks(PushList(lists, cur, order), Greedy(cur + Pow2(order), end))
  {
    hide PushList, Pow2;
    BestOrderUnique(cur, end - cur, order, BestOrder(cur, end - cur));
    var b := Block(cur, order);
    assert Greedy(cur, end)[1..] == Greedy(b.End(), end);
  }

  lemma GreedyNothing(lists: Lists, cur: nat)
    ensures PushBlocks(lists, Greedy(cur, cur)) == lists
  {
  }

  // ----- reserving

  /** What is pushed back for a block that overlaps the range: the pages before it, then those after it. */
  ghost function RemnantBlocks(b: Block, start: nat, end: nat): seq<Block>
    requires start <= end && Overlaps(b, start, end)
  {
    (if b.head < start then Greedy(b.head, start) else []) + (if end < b.End() then Greedy(end, b.End()) else [])
  }

  /** The lists after reserve_range has looked at the block at `page`. */
  ghost function CutList(lists: Lists, order: nat, page: nat, start: nat, end: nat): (r: Lists)
    requires order < |lists| && start <= end
    ensures |r| == |lists|
  {
    var s := lists[order];
    if Overlaps(Block(page, order), start, end) && page in s then
      PushBlocks(lists[order := RemoveAt(s, FirstIndex(s, page))], RemnantBlocks(Block(page, order), start, end))
    else lists
  }

  /** The lists after the walk over some pages of one list. */
  ghost function WalkedLists(lists: Lists, order: nat, pages: seq<nat>, start: nat, end: nat): (r: Lists)
    requires order < |lists| && start <= end
    ensures |r| == |lists|
    decreases |pages|
  {
    if pages == [] then lists
    else WalkedLists(CutList(lists, order, pages[0], start, end), order, pages[1..], start, end)
  }

  /** The lists after the walks over the lists from `order` on. */
  ghost function ReservedLists(lists: Lists, order: nat, start: nat, end: nat): (r: Lists)
    requires order <= |lists| && start <= end
    ensures |r| == |lists|
    decreases |lists| - order
  {
    if order == |lists| then lists
    else ReservedLists(WalkedLists(lists, order, lists[order], start, end), order + 1, start, end)
  }

  // ----- the lists in closed form

  /** The pages whose blocks do not overlap the range. */
  function Survivors(pages: seq<nat>, order: nat, start: nat, end: nat): seq<nat>
    decreases |pages|
  {
    if pages == [] then []
    else
      (if Overlaps(Block(pages[0], order), start, end) then [] else [pages[0]])
      + Survivors(pages[1..], order, start, end)
  }

  /** What is pushed back for the blocks of one list. */
  ghost function Pieces(pages: seq<nat>, order: nat, start: nat, end: nat): seq<Block>
    requires start <= end
    decreases |pages|
  {
    if pages == [] then []
    else
      (if Overlaps(Block(pages[0], order), start, end) then RemnantBlocks(Block(pages[0], order), start, end) else [])
      + Pieces(pages[1..], order, start, end)
  }

  /** What is pushed back for the blocks of the lists from `order` on. */
  ghost function AllPieces(lists: Lists, order: nat, start: nat, end: nat): seq<Block>
    requires order <= |lists| && start <= end
    decreases |lists| - order
  {
    if order == |lists| then [] else Pieces(lists[order], order, start, end) + AllPieces(lists, order + 1, start, end)
  }

  ghost predicate OrdersBelow(bs: seq<Block>, order: nat) {
    forall i :: 0 <= i < |bs| ==> bs[i].order < order
  }

  lemma GreedyOrdersBelow(start: nat, end: nat, order: nat)
    requires start <= end && end - start < Pow2(order)
    ensures OrdersBelow(Greedy(start, end), order)
  {
    hide Greedy, GreedyCover, Pow2;
    GreedyOrders(start, end, order);
    var bs := Greedy(start, end);
    forall i | 0 <= i < |bs|
      ensures bs[i].order < order
    {
      assert bs[i] in bs;
      GreedyMapsBlocks(start, end, bs[i]);
    }
  }

  /** Pieces have a strictly lower order than the block they come from. */
  lemma RemnantsBelow(b: Block, start: nat, end: nat)
    requires start <= end && Overlaps(b, start, end)
    ensures OrdersBelow(RemnantBlocks(b, start, end), b.order)
  {
    hide Greedy, Pow2;
    if b.head < start { GreedyOrdersBelow(b.head, start, b.order); }
    if end < b.End() { GreedyOrdersBelow(end, b.End(), b.order); }
  }

  lemma {:induction false} HeadsOfBelow(bs: seq<Block>, order: nat, o: nat)
    requires OrdersBelow(bs, order) && order <= o
    ensures HeadsOf(bs, o) == []
    decreases |bs|
  {
    if bs != [] {
      HeadsOfBelow(bs[1..], order, o);
    }
  }

  /** Looking at the page after `kept`: it goes or stays, and its pieces go in front of the lower lists. */
  lemma CutListAt(lists: Lists, order: nat, kept: seq<nat>, page: nat, rest: seq<nat>, start: nat, end: nat, o: nat)
    requires order < |lists| && start <= end && o < |lists|
    requires lists[order] == kept + [page] + rest && page !in kept
    ensures var cut, b := CutList(lists, order, page, start, end), Block(page, order);
      && (Overlaps(b, start, end) ==>
            cut[o] == if o == order then kept + rest else HeadsOf(RemnantBlocks(b, start, end), o) + lists[o])
      && (!Overlaps(b, start, end) ==> cut == lists)
  {
    hide RemnantBlocks, Overlaps, PushBlocks, HeadsOf;
    var s, b := lists[order], Block(page, order);
    if Overlaps(b, start, end) {
      RemoveAfter(kept, page, rest);
      var less := lists[order := kept + rest];
      RemnantsBelow(b, start, end);
      PushBlocksAt(less, RemnantBlocks(b, start, end), o);
      if o == order { HeadsOfBelow(RemnantBlocks(b, start, end), order, o); }
    }
  }

  lemma RemoveAfter(kept: seq<nat>, page: nat, rest: seq<nat>)
    requires page !in kept
    ensures var s := kept + [page] + rest;
      page in s && FirstIndex(s, page) == |kept| && RemoveAt(s, |kept|) == kept + rest
  {
    var s := kept + [page] + rest;
    assert s[|kept|] == page;
    assert forall j :: 0 <= j < |kept| ==> s[j] == kept[j] && kept[j] in kept;
    FirstIndexUnique(s, page, |kept|);
  }

  /** The walk over the rest of a list, entry by entry of the lists. */
  lemma {:induction false} WalkedListsAt(lists: Lists, order: nat, kept: seq<nat>, pages: seq<nat>, start: nat,
                                         end: nat, o: nat)
    requires order < |lists| && start <= end && o < |lists| && lists[order] == kept + pages && Distinct(kept + pages)
    ensures WalkedLists(lists, order, pages, start, end)[o]
      == if o == order then kept + Survivors(pages, order, start, end)
         else HeadsOf(Pieces(pages, order, start, end), o) + lists[o]
    decreases |pages|
  {
    hide CutList, RemnantBlocks, Overlaps, HeadsOf, Survivors, Pieces, WalkedLists, Distinct;
    if pages == [] {
      WalkNothing(lists, order, kept, start, end, o);
    } else {
      var page, rest := pages[0], pages[1..];
      var b, cut := Block(page, order), CutList(lists, order, page, start, end);
      SplitFirst(kept, pages);
      CutListAt(lists, order, kept, page, rest, start, end, o);
      CutListAt(lists, order, kept, page, rest, start, end, order);
      WalkUnfolds(lists, order, kept, pages, start, end, o);
      if Overlaps(b, start, end) {
        DistinctWithout(kept, page, rest);
        WalkedListsAt(cut, order, kept, rest, start, end, o);
      } else {
        WalkedListsAt(cut, order, kept + [page], rest, start, end, o);
      }
    }
  }

  lemma WalkNothing(lists: Lists, order: nat, kept: seq<nat>, start: nat, end: nat, o: nat)
    requires order < |lists| && start <= end && o < |lists|
    ensures WalkedLists(lists, order, [], start, end) == lists
    ensures kept + Survivors([], order, start, end) == kept && kept + [] == kept
    ensures HeadsOf(Pieces([], order, start, end), o) + lists[o] == lists[o]
  {
  }

  lemma WalkUnfolds(lists: Lists, order: nat, kept: seq<nat>, pages: seq<nat>, start: nat, end: nat, o: nat)
    requires order < |lists| && start <= end && o < |lists| && pages != []
    ensures var b, rest := Block(pages[0], order), pages[1..];
      && WalkedLists(lists, order, pages, start, end)
         == WalkedLists(CutList(lists, order, pages[0], start, end), order, rest, start, end)
      && (Overlaps(b, start, end) ==>
            && kept + Survivors(pages, order, start, end) == kept + Survivors(rest, order, start, end)
            && HeadsOf(Pieces(pages, order, start, end), o) + lists[o]
               == HeadsOf(Pieces(rest, order, start, end), o) + (HeadsOf(RemnantBlocks(b, start, end), o) + lists[o]))
      && (!Overlaps(b, start, end) ==>
            && kept + Survivors(pages, order, start, end) == (kept + [pages[0]]) + Survivors(rest, order, start, end)
            && HeadsOf(Pieces(pages, order, start, end), o) == HeadsOf(Pieces(rest, order, start, end), o))
  {
    hide CutList, RemnantBlocks, Overlaps, HeadsOf, Survivors, Pieces;
    var b, rest := Block(pages[0], order), pages[1..];
    SurvivorsStep(pages, order, start, end);
    PiecesStep(pages, order, start, end, o);
    if Overlaps(b, start, end) {
      Assoc(HeadsOf(Pieces(rest, order, start, end), o), HeadsOf(RemnantBlocks(b, start, end), o), lists[o]);
    } else {
      Assoc(kept, [pages[0]], Survivors(rest, order, start, end));
    }
  }

  lemma SurvivorsStep(pages: seq<nat>, order: nat, start: nat, end: nat)
    requires pages != []
    ensures Overlaps(Block(pages[0], order), start, end) ==>
      Survivors(pages, order, start, end) == Survivors(pages[1..], order, start, end)
    ensures !Overlaps(Block(pages[0], order), start, end) ==>
      Survivors(pages, order, start, end) == [pages[0]] + Survivors(pages[1..], order, start, end)
  {
    hide Overlaps;
  }

  lemma PiecesStep(pages: seq<nat>, order: nat, start: nat, end: nat, o: nat)
    requires pages != [] && start <= end
    ensures var b, rest := Block(pages[0], order), pages[1..];
      && (Overlaps(b, start, end) ==>
            HeadsOf(Pieces(pages, order, start, end), o)
            == HeadsOf(Pieces(rest, order, start, end), o) + HeadsOf(RemnantBlocks(b, start, end), o))
      && (!Overlaps(b, start, end) ==> Pieces(pages, order, start, end) == Pieces(rest, order, start, end))
  {
    hide Overlaps, RemnantBlocks, HeadsOf;
    var b, rest := Block(pages[0], order), pages[1..];
    if Overlaps(b, start, end) {
      HeadsOfConcat(RemnantBlocks(b, start, end), Pieces(rest, order, start, end), o);
    }
  }

  lemma Assoc(a: seq<nat>, b: seq<nat>, c: seq<nat>)
    ensures (a + b) + c == a + (b + c)
  {
  }

  lemma NoHeads(o: nat)
    ensures HeadsOf([], o) == []
  {
  }

  lemma SplitFirst(kept: seq<nat>, pages: seq<nat>)
    requires pages != [] && Distinct(kept + pages)
    ensures kept + pages == kept + [pages[0]] + pages[1..] && pages[0] !in kept
    ensures kept + pages == (kept + [pages[0]]) + pages[1..]
  {
    assert (kept + pages)[|kept|] == pages[0];
    assert forall j :: 0 <= j < |kept| ==> (kept + pages)[j] == kept[j];
  }

  lemma DistinctWithout(kept: seq<nat>, page: nat, rest: seq<nat>)
    requires Distinct(kept + [page] + rest)
    ensures Distinct(kept + rest)
  {
    var s, t := kept + [page] + rest, kept + rest;
    forall i, j | 0 <= i < j < |t|
      ensures t[i] != t[j]
    {
      var i', j' := if i < |kept| then i else i + 1, if j < |kept| then j else j + 1;
      assert s[i'] == t[i] && s[j'] == t[j];
    }
  }

  lemma {:induction false} PiecesBelow(pages: seq<nat>, order: nat, start: nat, end: nat)
    requires start <= end
    ensures OrdersBelow(Pieces(pages, order, start, end), order)
    decreases |pages|
  {
    hide RemnantBlocks, Overlaps;
    if pages != [] {
      PiecesBelow(pages[1..], order, start, end);
      if Overlaps(Block(pages[0], order), start, end) { RemnantsBelow(Block(pages[0], order), start, end); }
    }
  }

  /** The walks from `order` on leave lower lists with more pieces in front, and cut the lists they walk. */
  lemma {:induction false} ReservedFromAt(lists: Lists, order: nat, start: nat, end: nat, o: nat)
    requires order <= |lists| && start <= end && o < |lists| && forall k :: order <= k < |lists| ==> Distinct(lists[k])
    ensures ReservedLists(lists, order, start, end)[o]
      == HeadsOf(AllPieces(lists, order, start, end), o)
         + if order <= o then Survivors(lists[o], o, start, end) else lists[o]
    decreases |lists| - order
  {
    hide WalkedLists, HeadsOf, Pieces, Survivors, Distinct, ReservedLists, AllPieces;
    ReserveUnfolds(lists, order, start, end, o);
    if order < |lists| {
      var walked := WalkedLists(lists, order, lists[order], start, end);
      forall k | 0 <= k < |lists|
        ensures k > order ==> walked[k] == lists[k]
      {
        OneWalk(lists, order, start, end, k);
      }
      OneWalk(lists, order, start, end, o);
      ReservedFromAt(walked, order + 1, start, end, o);
      LaterPieces(lists, walked, order + 1, start, end);
    }
  }

  lemma OneWalk(lists: Lists, order: nat, start: nat, end: nat, k: nat)
    requires order < |lists| && start <= end && k < |lists| && Distinct(lists[order])
    ensures var walked, pieces := WalkedLists(lists, order, lists[order], start, end),
                                  Pieces(lists[order], order, start, end);
      && (k < order ==> walked[k] == HeadsOf(pieces, k) + lists[k])
      && (k == order ==> walked[k] == Survivors(lists[k], k, start, end) && HeadsOf(pieces, k) == [])
      && (k > order ==> walked[k] == lists[k] && HeadsOf(pieces, k) == [])
  {
    hide WalkedLists, HeadsOf, Pieces, Survivors, Distinct;
    assert [] + lists[order] == lists[order];
    assert [] + Survivors(lists[order], order, start, end) == Survivors(lists[order], order, start, end);
    WalkedListsAt(lists, order, [], lists[order], start, end, k);
    PiecesBelow(lists[order], order, start, end);
    if k >= order {
      HeadsOfBelow(Pieces(lists[order], order, start, end), order, k);
      assert [] + lists[k] == lists[k];
    }
  }

  lemma ReserveUnfolds(lists: Lists, order: nat, start: nat, end: nat, o: nat)
    requires order <= |lists| && start <= end && o < |lists|
    ensures order == |lists| ==>
      && ReservedLists(lists, order, start, end) == lists
      && HeadsOf(AllPieces(lists, order, start, end), o) + lists[o] == lists[o]
    ensures order < |lists| ==>
      var pieces := Pieces(lists[order], order, start, end);
      && ReservedLists(lists, order, start, end)
         == ReservedLists(WalkedLists(lists, order, lists[order], start, end), order + 1, start, end)
      && HeadsOf(AllPieces(lists, order, start, end), o)
         == HeadsOf(AllPieces(lists, order + 1, start, end), o) + HeadsOf(pieces, o)
  {
    hide WalkedLists, Pieces, HeadsOf;
    NoHeads(o);
    if order < |lists| {
      HeadsOfConcat(Pieces(lists[order], order, start, end), AllPieces(lists, order + 1, start, end), o);
    }
  }

  lemma {:induction false} LaterPieces(lists: Lists, lists': Lists, order: nat, start: nat, end: nat)
    requires |lists| == |lists'| && order <= |lists| && start <= end
    requires forall k :: order <= k < |lists| ==> lists'[k] == lists[k]
    ensures AllPieces(lists', order, start, end) == AllPieces(lists, order, start, end)
    decreases |lists| - order
  {
    hide Pieces;
    if order < |lists| {
      LaterPieces(lists, lists', order + 1, start, end);
    }
  }

  /**
    reserve_range, list by list: the blocks that do not overlap stay in order, behind the pieces of that order cut from
    larger blocks, the last cut first.
  */
  lemma ReservedListsAt(lists: Lists, start: nat, end: nat, o: nat)
    requires start <= end && o < |lists| && AllDistinct(lists)
    ensures ReservedLists(lists, 0, start, end)[o]
      == HeadsOf(AllPieces(lists, 0, start, end), o) + Survivors(lists[o], o, start, end)
  {
    hide ReservedLists, AllPieces, HeadsOf, Survivors, Distinct;
    ReservedFromAt(lists, 0, start, end, o);
  }
}
