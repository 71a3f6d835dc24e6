/** Whole runs of the buddy allocator, seen as who holds each page. */
module BuddyRuns {
  import opened Bits
  import opened BuddyBlocks

  datatype Pages = Pages(free: set<nat>, used: set<nat>, held: set<nat>)

  datatype Event =
    | Alloc(page: nat, order: nat)
    | AllocNone
    | Reserve(start: nat, end: nat)
    | Unreserve(start: nat, end: nat)

  function BlockPages(page: nat, order: nat): set<nat> {
    Range(page, page + Pow2(order))
  }

  /** What one call does to the pages; the allocator's methods are proved to be such steps. */
  ghost predicate Step(s: Pages, e: Event, s': Pages) {
    match e
    case Alloc(page, order) =>
      BlockPages(page, order) <= s.free
      && s' == Pages(s.free - BlockPages(page, order), s.used + BlockPages(page, order), s.held)
    case AllocNone => s' == s
    case Reserve(start, end) =>
      s' == Pages(s.free - Range(start, end), s.used, s.held + Range(start, end))
    case Unreserve(start, end) =>
      s' == Pages(s.free + Range(start, end), s.used, s.held - Range(start, end))
  }

  /** The caller's side: reserve nothing that is handed out, unreserve only what is reserved. */
  ghost predicate Legal(s: Pages, e: Event) {
    match e
    case Reserve(start, end) => Range(start, end) !! s.used
    case Unreserve(start, end) => Range(start, end) <= s.held
    case _ => true
  }

  ghost predicate Run(states: seq<Pages>, events: seq<Event>) {
    && |states| == |events| + 1
    && forall i :: 0 <= i < |events| ==> Step(states[i], events[i], states[i + 1])
  }

  ghost predicate LegalRun(states: seq<Pages>, events: seq<Event>) {
    Run(states, events) && forall i :: 0 <= i < |events| ==> Legal(states[i], events[i])
  }

  /** p is free, handed out or reserved, and only one of these. */
  ghost predicate ExactlyOne(s: Pages, p: nat) {
    && (p in s.free || p in s.used || p in s.held)
    && !(p in s.free && p in s.used) && !(p in s.free && p in s.held) && !(p in s.used && p in s.held)
  }

  ghost predicate Partition(s: Pages, managed: set<nat>) {
    && s.free + s.used <= managed
    && s.free !! s.used && s.free !! s.held && s.used !! s.held
    && forall p :: p in managed ==> ExactlyOne(s, p)
  }

  lemma StepKeepsPartition(s: Pages, e: Event, s': Pages, managed: set<nat>)
    requires Step(s, e, s') && Legal(s, e) && Partition(s, managed)
    requires e.Unreserve? ==> Range(e.start, e.end) <= managed
    ensures Partition(s', managed)
  {
    forall p | p in managed
      ensures ExactlyOne(s', p)
    {
      assert ExactlyOne(s, p);
    }
  }

  /** Reserving keeps the partition exactly when no page of the range is handed out. */
  lemma ReserveLegalIff(s: Pages, start: nat, end: nat, s': Pages, managed: set<nat>)
    requires Step(s, Reserve(start, end), s') && Partition(s, managed)
    ensures Partition(s', managed) <==> Range(start, end) !! s.used
  {
    if Range(start, end) !! s.used {
      StepKeepsPartition(s, Reserve(start, end), s', managed);
    } else {
      var p :| p in Range(start, end) && p in s.used;
      assert p in s'.used && p in s'.held;
    }
  }

  /** Conservation: through every legal run each managed page is exactly one of free, handed out, reserved. */
  lemma {:induction false} RunConserves(states: seq<Pages>, events: seq<Event>, managed: set<nat>, n: nat)
    requires LegalRun(states, events) && Partition(states[0], managed) && n < |states|
    requires forall i :: 0 <= i < |events| && events[i].Unreserve? ==> Range(events[i].start, events[i].end) <= managed
    ensures Partition(states[n], managed)
  {
    if n > 0 {
      RunConserves(states, events, managed, n - 1);
      StepKeepsPartition(states[n - 1], events[n - 1], states[n], managed);
    }
  }

  /** Handed-out pages stay handed out: the allocator has no free operation. */
  lemma {:induction false} UsedGrows(states: seq<Pages>, events: seq<Event>, i: nat, j: nat)
    requires Run(states, events) && i <= j < |states|
    ensures states[i].used <= states[j].used
    decreases j - i
  {
    if i < j {
      UsedGrows(states, events, i, j - 1);
      assert Step(states[j - 1], events[j - 1], states[j]);
    }
  }

  /** No page is handed out twice, and no page is handed out while reserved. */
  lemma NoDoubleHandOut(states: seq<Pages>, events: seq<Event>, managed: set<nat>, i: nat, j: nat)
    requires LegalRun(states, events) && Partition(states[0], managed)
    requires forall k :: 0 <= k < |events| && events[k].Unreserve? ==> Range(events[k].start, events[k].end) <= managed
    requires i < j < |events| && events[i].Alloc? && events[j].Alloc?
    ensures BlockPages(events[i].page, events[i].order) !! BlockPages(events[j].page, events[j].order)
    ensures BlockPages(events[j].page, events[j].order) !! states[j].held
  {
    assert Step(states[i], events[i], states[i + 1]) && Step(states[j], events[j], states[j + 1]);
    UsedGrows(states, events, i + 1, j);
    RunConserves(states, events, managed, j);
  }
}
