/** The recovery manager: registration tables, the periodic tick and the rollback cascade. */
module Managers {
  import opened Bits
  import opened Results
  import opened UndoSpec
  import opened UndoLogs
  import opened DomainSpec
  import opened Domains
  import opened CascadeSpec
  import opened Graphs

  const DIRECT_MAP_SIZE: nat := 64

  type Slots = seq<RecoveryDomain?>

  // ----- the registration tables

  /**
    `live` are the registered domains by id and `slot` says where each is in `domains`;
    the direct map repeats those with small ids.
  */
  ghost predicate Tables(domains: Slots, directMap: Slots, count: nat, live: map<nat, RecoveryDomain>,
                         slot: map<nat, nat>) {
    && |domains| == MAX_RECOVERY_DOMAINS && |directMap| == DIRECT_MAP_SIZE && count <= MAX_RECOVERY_DOMAINS
    && live.Keys == slot.Keys
    && (forall id :: id in live ==> live[id].id == id && slot[id] < count && domains[slot[id]] == live[id])
    && (forall i :: 0 <= i < count && domains[i] != null ==> domains[i].id in live && slot[domains[i].id] == i)
    && (forall k :: 0 <= k < DIRECT_MAP_SIZE ==> directMap[k] == if k in live then live[k] else null)
  }

  lemma TablesAfterRegister(domains: Slots, directMap: Slots, count: nat, live: map<nat, RecoveryDomain>,
                            slot: map<nat, nat>, d: RecoveryDomain)
    requires Tables(domains, directMap, count, live, slot) && count < MAX_RECOVERY_DOMAINS && d.id !in live
    ensures Tables(domains[count := d], if d.id < DIRECT_MAP_SIZE then directMap[d.id := d] else directMap,
                   count + 1, live[d.id := d], slot[d.id := count])
  {
  }

  lemma TablesAfterUnregister(domains: Slots, directMap: Slots, count: nat, live: map<nat, RecoveryDomain>,
                              slot: map<nat, nat>, id: nat)
    requires Tables(domains, directMap, count, live, slot) && id in live
    ensures Tables(domains[slot[id] := null], if id < DIRECT_MAP_SIZE then directMap[id := null] else directMap,
                   count, live - {id}, slot - {id})
  {
  }

  /** The direct map holds a domain exactly when a scan of the slots would find it. */
  lemma DirectMapAgreesWithScan(domains: Slots, directMap: Slots, count: nat, live: map<nat, RecoveryDomain>,
                                slot: map<nat, nat>, id: nat)
    requires Tables(domains, directMap, count, live, slot) && id < DIRECT_MAP_SIZE
    ensures directMap[id] != null ==> directMap[id].id == id && directMap[id] in domains[..count]
    ensures directMap[id] == null ==> forall i :: 0 <= i < count && domains[i] != null ==> domains[i].id != id
  {
    if id in live {
      assert domains[..count][slot[id]] == live[id];
    }
  }

  function IdsBelow(domains: Slots, n: nat): (s: set<nat>)
    requires n <= |domains|
    ensures |s| <= n
    ensures forall i :: 0 <= i < n && domains[i] != null ==> domains[i].id in s
  {
    if n == 0 then {}
    else if domains[n - 1] == null then IdsBelow(domains, n - 1)
    else IdsBelow(domains, n - 1) + {domains[n - 1].id}
  }

  /** The ids in the first n slots, in slot order. */
  ghost function SlotIds(domains: Slots, n: nat): (r: seq<Option<nat>>)
    requires n <= |domains|
    ensures |r| == n
    ensures forall i :: 0 <= i < n ==> r[i] == if domains[i] == null then None else Some(domains[i].id)
  {
    seq(n, i requires 0 <= i < n => if domains[i] == null then None else Some(domains[i].id))
  }

  /** There are never more registered domains than slots. */
  lemma LiveFits(domains: Slots, directMap: Slots, count: nat, live: map<nat, RecoveryDomain>, slot: map<nat, nat>)
    requires Tables(domains, directMap, count, live, slot)
    ensures |live.Keys| <= MAX_RECOVERY_DOMAINS
  {
    var ids := IdsBelow(domains, count);
    forall id | id in live
      ensures id in ids
    {
      assert domains[slot[id]].id == id;
    }
    SubsetCard(live.Keys, ids);
  }

  /** No two registered domains share a log. */
  ghost predicate Separate(live: map<nat, RecoveryDomain>) {
    forall a, b :: a in live && b in live && a != b ==>
      live[a].undo != live[b].undo && live[a].undo.entries != live[b].undo.entries
  }

  ghost predicate DomainOk(d: RecoveryDomain, mem: Memory)
    reads d, d.undo, d.undo.entries, mem
  {
    d.Valid() && InMemory(d.View().log.es, mem.bytes)
  }

  class RecoveryManager {
    var domains: Slots      // 32 slots; unregistering empties a slot, count never shrinks
    var directMap: Slots    // 64 slots, indexed by id
    var count: nat
    const mem: Memory       // the memory undo entries point into

    ghost var live: map<nat, RecoveryDomain>
    ghost var slot: map<nat, nat>

    ghost function Parts(): set<object>
      reads this
    {
      (set id | id in live :: live[id])
      + (set id | id in live :: live[id].undo)
      + (set id | id in live :: live[id].undo.entries)
    }

    ghost predicate Valid()
      reads this, Parts(), mem
    {
      && Tables(domains, directMap, count, live, slot)
      && Separate(live)
      && forall id :: id in live ==> DomainOk(live[id], mem)
    }

    /** The registered domains' values. */
    ghost function Snap(): System
      reads this, Parts()
    {
      map id | id in live :: live[id].View()
    }

    constructor (memory: Memory)
      ensures Valid() && live == map[] && mem == memory
    {
      mem := memory;
      domains := seq(MAX_RECOVERY_DOMAINS, _ => null);
      directMap := seq(DIRECT_MAP_SIZE, _ => null);
      count := 0;
      live := map[];
      slot := map[];
    }

    // ----- registration

    /** register: append the domain; slots of unregistered domains are not reused. */
    method Register(d: RecoveryDomain) returns (r: Option<nat>)
      requires Valid() && DomainOk(d, mem)
      requires d.id !in live
      requires Separate(live[d.id := d])
      modifies this
      ensures Valid()
      ensures r == if old(count) < 32 then Some(d.id) else None
      ensures live == if r.Some? then old(live)[d.id := d] else old(live)
      ensures count == if r.Some? then old(count) + 1 else old(count)
      ensures domains == if r.Some? then old(domains)[old(count) := d] else old(domains)
      ensures slot == if r.Some? then old(slot)[d.id := old(count)] else old(slot)
      ensures directMap == if r.Some? && d.id < 64 then old(directMap)[d.id := d] else old(directMap)
      ensures SystemStep(old(Snap()), Snap())
    {
      hide Tables, DomainOk, Separate, AllLoaded, SystemStep, WellFormedDom, RecoveryDomain.View;
      TablesShape();
      SnapWellFormed();
      ghost var s := Snap();
      var idx := count;
      if idx >= MAX_RECOVERY_DOMAINS {
        CommonMoves(s, s);
        return None;
      }
      TablesAfterRegister(domains, directMap, count, live, slot, d);
      PutSlot(idx, d.id, d);
      count := count + 1;
      CommonMoves(s, Snap());
      r := Some(d.id);
    }

    /** Writes a slot and the direct-map entry of a small id. */
    method PutSlot(i: nat, id: nat, d: RecoveryDomain?)
      requires i < |domains| && |directMap| == DIRECT_MAP_SIZE
      modifies this`domains, this`directMap, this`live, this`slot
      ensures domains == old(domains)[i := d]
      ensures directMap == if id < DIRECT_MAP_SIZE then old(directMap)[id := d] else old(directMap)
      ensures live == if d == null then old(live) - {id} else old(live)[id := d]
      ensures slot == if d == null then old(slot) - {id} else old(slot)[id := i]
    {
      if id < DIRECT_MAP_SIZE {
        directMap := directMap[id := d];
      }
      domains := domains[i := d];
      live := if d == null then live - {id} else live[id := d];
      slot := if d == null then slot - {id} else slot[id := i];
    }

    /** recovery_domain_unregister: empty the domain's slot and direct-map entry. */
    method Unregister(id: nat) returns (r: int)
      requires Valid()
      modifies this
      ensures Valid() && count == old(count)
      ensures r == if id in old(live) then 0 else -1
      ensures live == old(live) - {id} && slot == old(slot) - {id}
      ensures id in old(live) ==> id in old(slot) && domains == old(domains)[old(slot)[id] := null]
      ensures id !in old(live) ==> domains == old(domains)
      ensures directMap ==
        if id in old(live) && id < DIRECT_MAP_SIZE then old(directMap)[id := null] else old(directMap)
      ensures SystemStep(old(Snap()), Snap())
    {
      hide Tables, DomainOk, Separate, AllLoaded, SystemStep, WellFormedDom, RecoveryDomain.View;
      TablesShape();
      SnapWellFormed();
      ghost var s := Snap();
      var i := IndexOf(id);
      if i == count {
        CommonMoves(s, s);
        return -1;
      }
      TablesAfterUnregister(domains, directMap, count, live, slot, id);
      SeparateShrinks(live, id);
      PutSlot(i, id, null);
      CommonMoves(s, Snap());
      r := 0;
    }

    lemma TablesShape()
      requires Tables(domains, directMap, count, live, slot)
      ensures |domains| == MAX_RECOVERY_DOMAINS && |directMap| == DIRECT_MAP_SIZE && count <= MAX_RECOVERY_DOMAINS
      ensures live.Keys == slot.Keys
    {
    }

    lemma SeparateShrinks(ds: map<nat, RecoveryDomain>, id: nat)
      requires Separate(ds)
      ensures Separate(ds - {id})
    {
    }

    /** The scan for the slot of a live id; `count` when there is none. */
    method IndexOf(id: nat) returns (i: nat)
      requires Tables(domains, directMap, count, live, slot)
      ensures i <= count
      ensures i < count <==> id in live
      ensures id in live ==> i == slot[id]
      ensures Snap() == old(Snap())
    {
      hide Snap;
      i := 0;
      while i < count
        invariant 0 <= i <= count
        invariant forall j :: 0 <= j < i ==> domains[j] == null || domains[j].id != id
      {
        if domains[i] != null && domains[i].id == id {
          return;
        }
        i := i + 1;
      }
    }

    /** find: direct map for small ids, scan for large ones. */
    method Find(id: nat) returns (d: RecoveryDomain?)
      requires Valid()
      ensures d == if id in live then live[id] else null
      ensures d != null ==> d.id == id
      ensures Valid() && Snap() == old(Snap())
    {
      hide Separate, DomainOk, RecoveryDomain.View;
      if id < DIRECT_MAP_SIZE {
        d := directMap[id];
      } else {
        var i := IndexOf(id);
        d := if i < count then domains[i] else null;
      }
    }

    // ----- visiting one domain

    lemma SnapWellFormed()
      requires Valid()
      ensures Rings(Snap()) && Snap().Keys == live.Keys
      ensures forall id :: id in live ==> WellFormedDom(Snap()[id])
      ensures AllLoaded(Snap(), |mem.bytes|)
    {
      hide InMemory, Inv, Tables, Separate, Loaded;
      forall id | id in live
        ensures WellFormedDom(Snap()[id]) && Loaded(Snap()[id], |mem.bytes|)
      {
        assert DomainOk(live[id], mem);
        LoadedDom(Snap()[id], mem.bytes);
      }
    }

    /** try_rollback and, when granted, rollback_domain on one domain; the others do not change. */
    method Visit(d: RecoveryDomain, tick: nat, fp: nat, depth: nat) returns (ok: bool, entries: nat)
      requires Valid() && d.id in live && live[d.id] == d
      modifies d, d.undo`count, d.undo`currentGeneration, d.undo.entries, mem
      ensures Valid()
      ensures ok == TryOk(old(Snap())[d.id].guard, tick, fp)
      ensures entries == if ok then Entries(old(Snap())[d.id], depth) else 0
      ensures Snap() == old(Snap())[d.id := Attempt(old(Snap())[d.id], tick, fp, depth)]
      ensures Loaded(old(Snap())[d.id], |old(mem.bytes)|)
      ensures mem.bytes == AttemptMemory(old(Snap())[d.id], tick, fp, depth, old(mem.bytes))
    {
      hide Tables, Fits, RecoveryDomain.Valid, RecoveryDomain.View, TryOk, Attempt, Entries, Loaded, AttemptMemory;
      assert DomainOk(d, mem);
      ok, entries := d.AttemptRollback(mem, tick, fp, depth);
      forall x | x in live && x != d.id
        ensures DomainOk(live[x], mem) && live[x].View() == old(live[x].View())
      {
        assert old(DomainOk(live[x], mem));
      }
    }

    // ----- the cascade

    /** The flags say which live domains are in the queue. */
    ghost predicate FlagsMatch(q: seq<nat>, visited: seq<bool>)
      reads this
    {
      && |visited| == MAX_RECOVERY_DOMAINS
      && forall id :: id in live ==> id in slot && slot[id] < |visited| && (visited[slot[id]] <==> id in q)
    }

    /** One dependent: append it unless it is unknown, already queued, or the queue is full. */
    method EnqueueOne(q: seq<nat>, visited: seq<bool>, dep: nat) returns (q': seq<nat>, visited': seq<bool>)
      requires Valid()
      requires NoRepeats(q) && |q| < MAX_RECOVERY_DOMAINS && FlagsMatch(q, visited)
      requires forall i :: 0 <= i < |q| ==> q[i] in live
      ensures FlagsMatch(q', visited')
      ensures q' == if dep in live && dep !in q then q + [dep] else q
      ensures Valid() && Snap() == old(Snap())
    {
      hide DomainOk, Separate, RecoveryDomain.View;
      q', visited' := q, visited;
      var i := IndexOf(dep);
      if i < count && !visited[i] {
        visited' := visited[i := true];
        q' := q + [dep];
        forall id | id in live
          ensures visited'[slot[id]] <==> id in q'
        {
          assert domains[slot[id]] == live[id] && domains[slot[dep]] == live[dep];
          assert id in q' <==> id in q || id == dep;
        }
      }
    }

    /** The loop body for the dependent in slot k; `full` tells the loop to stop. */
    method EnqueueSlot(ghost q0: seq<nat>, q: seq<nat>, visited: seq<bool>, slots: seq<Option<nat>>, k: nat)
      returns (q': seq<nat>, visited': seq<bool>, full: bool)
      requires Valid() && k < |slots| && slots[k].Some? && NoRepeats(q0) && forall i :: 0 <= i < |q0| ==> q0[i] in live
      requires q == Appended(live.Keys, q0, slots, k) && FlagsMatch(q, visited)
      ensures q' == Appended(live.Keys, q0, slots, if full then |slots| else k + 1) && FlagsMatch(q', visited')
      ensures Valid() && Snap() == old(Snap())
    {
      hide Valid, Snap, Tables, FlagsMatch, NoRepeats, Parts;
      AppendedMembers(live.Keys, q0, slots, k);
      AppendedDistinct(live.Keys, q0, slots, k);
      if |q| >= MAX_RECOVERY_DOMAINS {
        TablesOf();
        FullQueueHasAll(q);
        AppendedFull(live.Keys, q0, slots, k, |slots|);
        return q, visited, true;
      }
      q', visited' := EnqueueOne(q, visited, slots[k].value);
      full := false;
    }

    /** The loop over a domain's dependents, with the guard against a full queue: all new live ones, in slot order. */
    method EnqueueDependents(q: seq<nat>, visited: seq<bool>, slots: seq<Option<nat>>)
      returns (q': seq<nat>, visited': seq<bool>)
      requires Valid()
      requires NoRepeats(q) && FlagsMatch(q, visited) && forall i :: 0 <= i < |q| ==> q[i] in live
      ensures q' == Appended(live.Keys, q, slots, |slots|) && FlagsMatch(q', visited')
      ensures Valid() && Snap() == old(Snap())
    {
      hide Valid, Snap, FlagsMatch, NoRepeats, Parts;
      q', visited' := q, visited;
      var k := 0;
      while k < |slots|
        invariant 0 <= k <= |slots|
        invariant q' == Appended(live.Keys, q, slots, k) && FlagsMatch(q', visited')
        invariant Valid() && Snap() == old(Snap())
      {
        if slots[k].Some? {
          var full;
          q', visited', full := EnqueueSlot(q, q', visited', slots, k);
          if full {
            k := |slots|;
            break;
          }
        }
        k := k + 1;
      }
    }

    /** A full queue already holds every live domain, so the overflow guard drops nothing. */
    lemma FullQueueHasAll(q: seq<nat>)
      requires Tables(domains, directMap, count, live, slot) && NoRepeats(q) && |q| >= MAX_RECOVERY_DOMAINS
      requires forall i :: 0 <= i < |q| ==> q[i] in live
      ensures forall id :: id in live ==> id in q
    {
      LiveFits(domains, directMap, count, live, slot);
      Pigeonhole(q, live.Keys);
    }

    lemma TablesOf()
      requires Valid()
      ensures Tables(domains, directMap, count, live, slot)
    {
    }

    /** A queue of different live domains fits. */
    lemma QueueFits(q: seq<nat>)
      requires Tables(domains, directMap, count, live, slot) && NoRepeats(q)
      requires forall i :: 0 <= i < |q| ==> q[i] in live
      ensures |q| <= MAX_RECOVERY_DOMAINS
    {
      LiveFits(domains, directMap, count, live, slot);
      Pigeonhole(q, live.Keys);
    }

    /** How far a cascade has come: the visits before `head` have had their effect on domains and memory. */
    ghost predicate Underway(s: System, m: seq<Byte>, root: nat, tick: nat, fp: nat, q: seq<nat>, head: nat,
                             rolledBack: nat)
      reads this, Parts(), mem
    {
      && Rings(s) && AllLoaded(s, |m|) && s.Keys == live.Keys
      && q == Queue(s, tick, fp, root, head)
      && head <= |q| <= MAX_RECOVERY_DOMAINS && Explored(Links(s, tick, fp), root, q, head)
      && (forall i :: 0 <= i < |q| ==> q[i] in s)
      && Snap() == CascadeSpec.Visited(s, tick, fp, q, head)
      && mem.bytes == VisitedMemory(s, tick, fp, q, head, m)
      && rolledBack == Depth(s, tick, fp, q, head)
    }

    /** One turn of the cascade's loop: visit the domain at the head of the queue and queue its dependents. */
    method CascadeTurn(ghost s: System, ghost m: seq<Byte>, ghost root: nat, tick: nat, fp: nat, q: seq<nat>, head: nat,
                       visited: seq<bool>, rolledBack: nat)
      returns (q': seq<nat>, visited': seq<bool>, rolledBack': nat)
      requires Valid() && head < |q| && FlagsMatch(q, visited) && Underway(s, m, root, tick, fp, q, head, rolledBack)
      modifies Parts(), mem
      ensures Valid() && unchanged(this)
      ensures FlagsMatch(q', visited') && Underway(s, m, root, tick, fp, q', head + 1, rolledBack')
    {
      hide Tables, Separate, DomainOk, FlagsMatch, Explored, Attempt, TryOk, Entries, Depth, CascadeSpec.Visited, Snap,
        Edge, Links, Queue, Turn, Appended, Parts, Valid, VisitedMemory, AttemptMemory, AllLoaded, Loaded, NoRepeats,
        Rings;
      NotVisitedYet(s, tick, fp, root, q, head);
      VisitedStep(s, tick, fp, q, head);
      VisitedMemoryStep(s, tick, fp, q, head, m);
      TurnIs(s, tick, fp, root, q, head);
      var d := Find(q[head]);
      PartsHold(d);
      var ok, entries := Visit(d, tick, fp, rolledBack);
      q', visited', rolledBack' := q, visited, rolledBack;
      if ok {
        if entries > 0 {
          rolledBack' := rolledBack + 1;
        }
        SnapAt(d);
        AttemptKeepsLinks(s[q[head]], tick, fp, rolledBack);
        q', visited' := EnqueueDependents(q, visited, d.dependedBy);
      }
      assert q' == Turn(s, tick, fp, q, head);
      assert rolledBack' == Depth(s, tick, fp, q, head + 1);
      CascadeAdvances(s, m, root, tick, fp, q, q', head);
      TablesOf();
      QueueFits(q');
    }

    /** What the turn on the head of the queue makes of it, and what the next queue is. */
    lemma TurnIs(s: System, tick: nat, fp: nat, root: nat, q: seq<nat>, head: nat)
      requires head < |q| && q == Queue(s, tick, fp, root, head)
      ensures Queue(s, tick, fp, root, head + 1) == Turn(s, tick, fp, q, head)
      ensures TryOk(s[q[head]].guard, tick, fp) ==>
        Turn(s, tick, fp, q, head) == Appended(s.Keys, q, s[q[head]].dependedBy, |s[q[head]].dependedBy|)
      ensures !TryOk(s[q[head]].guard, tick, fp) ==> Turn(s, tick, fp, q, head) == q
    {
      hide TryOk;
    }

    lemma NotVisitedYet(s: System, tick: nat, fp: nat, root: nat, q: seq<nat>, head: nat)
      requires Rings(s) && head < |q| && Explored(Links(s, tick, fp), root, q, head)
      requires forall i :: 0 <= i < |q| ==> q[i] in s
      ensures NoRepeats(q) && CascadeSpec.Visited(s, tick, fp, q, head)[q[head]] == s[q[head]]
      ensures |s[q[head]].barriers.ring| == MAX_BARRIER_SNAPSHOTS
    {
      hide Links, CascadeSpec.Visited, Edge, Reachable;
      NotVisited(s, tick, fp, q, head, q[head]);
    }

    /** Appending to the queue changes nothing about the visits made so far. */
    lemma CascadeAdvances(s: System, m: seq<Byte>, root: nat, tick: nat, fp: nat, q: seq<nat>, q': seq<nat>, head: nat)
      requires Rings(s) && AllLoaded(s, |m|) && head < |q| && Explored(Links(s, tick, fp), root, q, head)
      requires (forall i :: 0 <= i < |q| ==> q[i] in s) && NoRepeats(q) && q' == Turn(s, tick, fp, q, head)
      ensures q <= q' && NoRepeats(q') && forall i :: 0 <= i < |q'| ==> q'[i] in s
      ensures Explored(Links(s, tick, fp), root, q', head + 1)
      ensures CascadeSpec.Visited(s, tick, fp, q, head + 1) == CascadeSpec.Visited(s, tick, fp, q', head + 1)
      ensures VisitedMemory(s, tick, fp, q, head + 1, m) == VisitedMemory(s, tick, fp, q', head + 1, m)
      ensures Depth(s, tick, fp, q, head + 1) == Depth(s, tick, fp, q', head + 1)
    {
      hide Links, CascadeSpec.Visited, VisitedMemory, Depth, Edge, Explored, Rings, AllLoaded, Turn;
      TurnFacts(s, tick, fp, q, head);
      ExploreStep(Links(s, tick, fp), root, q, q', head);
      VisitedPrefix(s, tick, fp, q, q', head + 1);
      VisitedMemoryPrefix(s, tick, fp, q, q', head + 1, m);
      DepthPrefix(s, tick, fp, q, q', head + 1);
    }

    lemma PartsHold(d: RecoveryDomain)
      requires d.id in live && live[d.id] == d
      ensures d in Parts() && d.undo in Parts() && d.undo.entries in Parts()
    {
    }

    lemma SnapAt(d: RecoveryDomain)
      requires d.id in live && live[d.id] == d
      ensures d.id in Snap() && Snap()[d.id] == d.View() && d.View().dependedBy == d.dependedBy
    {
    }

    lemma AttemptKeepsLinks(d: Dom, tick: nat, fp: nat, depth: nat)
      requires |d.barriers.ring| == MAX_BARRIER_SNAPSHOTS
      ensures Attempt(d, tick, fp, depth).dependedBy == d.dependedBy
    {
    }

    /**
      cascade_rollback: breadth-first from the target along dependents, through domains whose attempt was granted.
      It visits exactly the reachable domains, each once, and reports how many visits rolled back entries; the ghost
      result records the call with its effect on domains and memory.
    */
    method CascadeRollback(root: nat, tick: nat, fp: nat) returns (rolledBack: nat, ghost c: CascadeRun)
      requires Valid()
      modifies Parts(), mem
      ensures Valid() && unchanged(this)
      ensures c == CascadeRun(root, tick, fp, c.order, rolledBack, old(Snap()), Snap(), old(mem.bytes), mem.bytes)
      ensures CascadeEffect(c)
      ensures rolledBack > 0 <==> Rings(old(Snap())) && Fruitful(old(Snap()), root, tick, fp)
      ensures SystemStep(old(Snap()), Snap())
    {
      hide Tables, Separate, DomainOk, FlagsMatch, Snap, Parts, Underway, CascadeEffect, Fruitful, SystemStep,
        AllLoaded, Rings;
      ghost var s, m := Snap(), mem.bytes;
      SnapWellFormed();
      var q: seq<nat>, visited := Start(root);
      CascadeStarts(s, m, root, tick, fp, q);
      var head := 0;
      rolledBack := 0;
      while head < |q|
        invariant Valid() && unchanged(this) && Rings(s)
        invariant head <= |q| <= MAX_RECOVERY_DOMAINS && FlagsMatch(q, visited)
        invariant Underway(s, m, root, tick, fp, q, head, rolledBack)
        decreases MAX_RECOVERY_DOMAINS - head
      {
        q, visited, rolledBack := CascadeTurn(s, m, root, tick, fp, q, head, visited, rolledBack);
        head := head + 1;
        QueueBound(s, m, root, tick, fp, q, head, rolledBack);
      }
      c := CascadeRun(root, tick, fp, q, rolledBack, s, Snap(), m, mem.bytes);
      CascadeEnds(c);
      CascadeSucceedsIff(c);
      CascadeIsSystemStep(c);
    }

    lemma QueueBound(s: System, m: seq<Byte>, root: nat, tick: nat, fp: nat, q: seq<nat>, head: nat, rolledBack: nat)
      requires Underway(s, m, root, tick, fp, q, head, rolledBack)
      ensures head <= |q| <= MAX_RECOVERY_DOMAINS
    {
    }

    /** The queue before the loop: the target if it is registered. */
    method Start(root: nat) returns (q: seq<nat>, visited: seq<bool>)
      requires Valid()
      ensures q == if root in live then [root] else []
      ensures FlagsMatch(q, visited) && Valid() && Snap() == old(Snap())
    {
      hide DomainOk, Separate, Snap;
      visited := seq(MAX_RECOVERY_DOMAINS, _ => false);
      q, visited := EnqueueOne([], visited, root);
    }

    lemma CascadeStarts(s: System, m: seq<Byte>, root: nat, tick: nat, fp: nat, q: seq<nat>)
      requires Rings(s) && AllLoaded(s, |m|) && s == Snap() && m == mem.bytes && s.Keys == live.Keys
      requires q == if root in live then [root] else []
      ensures Underway(s, m, root, tick, fp, q, 0, 0)
    {
      hide Edge, Loaded, Snap;
      if root in s {
        RootReachable(Links(s, tick, fp), root);
      }
    }

    lemma CascadeEnds(c: CascadeRun)
      requires c.after == Snap() && c.mem' == mem.bytes
      requires Underway(c.before, c.mem, c.root, c.tick, c.fp, c.order, |c.order|, c.rolledBack)
      ensures CascadeEffect(c)
    {
      hide Explored, Reachable, AllLoaded, Rings, Snap, CascadeSpec.Visited, VisitedMemory, Depth, Links, Queue;
      ExploredNoRepeats(Links(c.before, c.tick, c.fp), c.root, c.order, |c.order|);
      forall id: nat
        ensures id in c.order <==> Reachable(Links(c.before, c.tick, c.fp), c.root, id)
      {
        ExploredAll(Links(c.before, c.tick, c.fp), c.root, c.order, id);
      }
    }

    lemma ExploredNoRepeats(g: Graph, root: nat, q: seq<nat>, h: nat)
      requires Explored(g, root, q, h)
      ensures NoRepeats(q)
    {
    }

    /** persist_crash_fingerprint on one domain; the others do not change. */
    method VisitPersist(d: RecoveryDomain, fp: nat)
      requires Valid() && d.id in live && live[d.id] == d
      modifies d`lastCrashFingerprint
      ensures Valid()
      ensures Snap() == old(Snap())[d.id := DomainSpec.Step(old(Snap())[d.id], PersistOp(fp))]
    {
      hide Tables, Fits, RecoveryDomain.Valid, RecoveryDomain.View, DomainSpec.Step;
      assert DomainOk(d, mem);
      RingOf(d);
      PersistKeepsLog(d.View(), fp);
      d.PersistCrashFingerprint(fp);
      forall x | x in live && x != d.id
        ensures DomainOk(live[x], mem) && live[x].View() == old(live[x].View())
      {
        assert old(DomainOk(live[x], mem));
      }
    }

    lemma RingOf(d: RecoveryDomain)
      requires d.Valid()
      ensures |d.View().barriers.ring| == MAX_BARRIER_SNAPSHOTS
    {
    }

    lemma PersistKeepsLog(d: Dom, fp: nat)
      requires |d.barriers.ring| == MAX_BARRIER_SNAPSHOTS
      ensures DomainSpec.Step(d, PersistOp(fp)).log == d.log
    {
    }

    // ----- recording and heartbeats

    /**
      The undo record of a recoverable lock or of recovery_undo_record.  The field lies in memory.  An unknown id is
      reported, and `ok` is false where the kernel panics because the log has no room.
    */
    method RecordUndo(id: nat, sync: bool, ptr: nat, value: seq<Byte>) returns (found: bool, ok: bool)
      requires Valid() && ptr + Min(|value|, 8) <= |mem.bytes|
      modifies Parts()
      ensures Valid() && unchanged(this) && mem.bytes == old(mem.bytes)
      ensures found <==> id in live
      ensures Rings(old(Snap()))
      ensures Snap() == Operated(old(Snap()), id, RecordOp(sync, ptr, value))
      ensures found ==> (ok <==> HasRoom(old(Snap())[id].log.es, Snap()[id].log.gen, ptr))
      ensures SystemStep(old(Snap()), Snap())
    {
      hide Valid, Snap, SystemStep, Parts, DomainSpec.Step, HasRoom;
      ghost var s := Snap();
      SnapWellFormed();
      var d := Find(id);
      found, ok := d != null, false;
      OneMoves(s, id, RecordOp(sync, ptr, value));
      if d != null {
        PartsHold(d);
        ok := VisitRecord(d, sync, ptr, value);
      }
    }

    method VisitRecord(d: RecoveryDomain, sync: bool, ptr: nat, value: seq<Byte>) returns (ok: bool)
      requires Valid() && d.id in live && live[d.id] == d && ptr + Min(|value|, 8) <= |mem.bytes|
      modifies d.undo`count, d.undo`currentGeneration, d.undo.entries
      ensures Valid()
      ensures Snap() == old(Snap())[d.id := DomainSpec.Step(old(Snap())[d.id], RecordOp(sync, ptr, value))]
      ensures ok <==> HasRoom(old(Snap())[d.id].log.es, Snap()[d.id].log.gen, ptr)
    {
      hide Tables, Fits, RecoveryDomain.Valid, RecoveryDomain.View, DomainSpec.Step, HasRoom;
      assert DomainOk(d, mem);
      RingOf(d);
      RecordInMemory(d.View(), sync, ptr, value, mem.bytes);
      ok := d.RecordUndo(sync, ptr, value);
      forall x | x in live && x != d.id
        ensures DomainOk(live[x], mem) && live[x].View() == old(live[x].View())
      {
        assert old(DomainOk(live[x], mem));
      }
    }

    /** heartbeat, for a known id. */
    method Heartbeat(id: nat, tick: nat) returns (found: bool)
      requires Valid()
      modifies Parts()
      ensures Valid() && unchanged(this) && mem.bytes == old(mem.bytes)
      ensures found <==> id in live
      ensures Rings(old(Snap()))
      ensures Snap() == Operated(old(Snap()), id, HeartbeatOp(tick))
      ensures SystemStep(old(Snap()), Snap())
    {
      hide Valid, Snap, SystemStep, Parts, DomainSpec.Step;
      ghost var s := Snap();
      SnapWellFormed();
      var d := Find(id);
      found := d != null;
      OneMoves(s, id, HeartbeatOp(tick));
      if d != null {
        PartsHold(d);
        VisitHeartbeat(d, tick);
      }
    }

    method VisitHeartbeat(d: RecoveryDomain, tick: nat)
      requires Valid() && d.id in live && live[d.id] == d
      modifies d`lastHeartbeat
      ensures Valid()
      ensures Snap() == old(Snap())[d.id := DomainSpec.Step(old(Snap())[d.id], HeartbeatOp(tick))]
    {
      hide Tables, Fits, RecoveryDomain.Valid, RecoveryDomain.View, DomainSpec.Step;
      assert DomainOk(d, mem);
      RingOf(d);
      HeartbeatKeepsLog(d.View(), tick);
      d.HeartbeatAt(tick);
      forall x | x in live && x != d.id
        ensures DomainOk(live[x], mem) && live[x].View() == old(live[x].View())
      {
        assert old(DomainOk(live[x], mem));
      }
    }

    /** add_dependency on a known domain. */
    method DependOn(id: nat, dep: nat) returns (found: bool)
      requires Valid()
      modifies Parts()
      ensures Valid() && unchanged(this) && mem.bytes == old(mem.bytes)
      ensures found <==> id in live
      ensures Rings(old(Snap()))
      ensures Snap() == Operated(old(Snap()), id, DependsOnOp(dep))
      ensures SystemStep(old(Snap()), Snap())
    {
      hide Valid, Snap, SystemStep, Parts, DomainSpec.Step;
      ghost var s := Snap();
      SnapWellFormed();
      var d := Find(id);
      found := d != null;
      OneMoves(s, id, DependsOnOp(dep));
      if d != null {
        PartsHold(d);
        VisitDependsOn(d, dep);
      }
    }

    /** add_depended_by on a known domain. */
    method DependedOnBy(id: nat, dependent: nat) returns (found: bool)
      requires Valid()
      modifies Parts()
      ensures Valid() && unchanged(this) && mem.bytes == old(mem.bytes)
      ensures found <==> id in live
      ensures Rings(old(Snap()))
      ensures Snap() == Operated(old(Snap()), id, DependedByOp(dependent))
      ensures SystemStep(old(Snap()), Snap())
    {
      hide Valid, Snap, SystemStep, Parts, DomainSpec.Step;
      ghost var s := Snap();
      SnapWellFormed();
      var d := Find(id);
      found := d != null;
      OneMoves(s, id, DependedByOp(dependent));
      if d != null {
        PartsHold(d);
        VisitDependedBy(d, dependent);
      }
    }

    /**
      recovery_domain_add_dep: the dependency is stored on the domain, and the domain among the dependents of the
      dependency if that is registered; the outcome of the second is ignored.
    */
    method AddDep(id: nat, dep: nat) returns (r: int)
      requires Valid()
      modifies Parts()
      ensures Valid() && unchanged(this) && mem.bytes == old(mem.bytes)
      ensures Rings(old(Snap()))
      ensures r == if id in live then 0 else -1
      ensures r == 0 ==>
        Snap() == Operated(Operated(old(Snap()), id, DependsOnOp(dep)), dep, DependedByOp(id))
      ensures r != 0 ==> Snap() == old(Snap())
    {
      hide Valid, Snap, SystemStep, DomainSpec.Step;
      SnapWellFormed();
      var found := DependOn(id, dep);
      if !found {
        return -1;
      }
      var _ := DependedOnBy(dep, id);
      r := 0;
    }

    method VisitDependsOn(d: RecoveryDomain, dep: nat)
      requires Valid() && d.id in live && live[d.id] == d
      modifies d`dependsOn
      ensures Valid()
      ensures Rings(old(Snap())) && Snap() == Operated(old(Snap()), d.id, DependsOnOp(dep))
    {
      hide Tables, Fits, RecoveryDomain.Valid, RecoveryDomain.View, DomainSpec.Step, Rings;
      SnapWellFormed();
      assert DomainOk(d, mem);
      RingOf(d);
      LinksKeepLog(d.View(), dep);
      var _ := d.AddDependency(dep);
      forall x | x in live && x != d.id
        ensures DomainOk(live[x], mem) && live[x].View() == old(live[x].View())
      {
        assert old(DomainOk(live[x], mem));
      }
    }

    method VisitDependedBy(d: RecoveryDomain, dependent: nat)
      requires Valid() && d.id in live && live[d.id] == d
      modifies d`dependedBy
      ensures Valid()
      ensures Rings(old(Snap())) && Snap() == Operated(old(Snap()), d.id, DependedByOp(dependent))
    {
      hide Tables, Fits, RecoveryDomain.Valid, RecoveryDomain.View, DomainSpec.Step, Rings;
      SnapWellFormed();
      assert DomainOk(d, mem);
      RingOf(d);
      LinksKeepLog(d.View(), dependent);
      var _ := d.AddDependedBy(dependent);
      forall x | x in live && x != d.id
        ensures DomainOk(live[x], mem) && live[x].View() == old(live[x].View())
      {
        assert old(DomainOk(live[x], mem));
      }
    }

    lemma LinksKeepLog(d: Dom, x: nat)
      requires |d.barriers.ring| == MAX_BARRIER_SNAPSHOTS
      ensures DomainSpec.Step(d, DependsOnOp(x)).log == DomainSpec.Step(d, DependedByOp(x)).log == d.log
    {
    }

    lemma HeartbeatKeepsLog(d: Dom, tick: nat)
      requires |d.barriers.ring| == MAX_BARRIER_SNAPSHOTS
      ensures DomainSpec.Step(d, HeartbeatOp(tick)).log == d.log
    {
    }

    lemma RecordInMemory(d: Dom, sync: bool, ptr: nat, value: seq<Byte>, m: seq<Byte>)
      requires |d.barriers.ring| == MAX_BARRIER_SNAPSHOTS && InMemory(d.log.es, m) && ptr + Min(|value|, 8) <= |m|
      ensures InMemory(DomainSpec.Step(d, RecordOp(sync, ptr, value)).log.es, m)
    {
      var gen := if sync then d.barriers.generation else d.log.gen;
      MakeRoomInMemory(d.log.es, gen, m);
    }

    lemma MakeRoomInMemory(es: seq<UndoEntry>, gen: nat, m: seq<Byte>)
      requires InMemory(es, m)
      ensures InMemory(MakeRoom(es, gen), m)
    {
    }

    lemma OneMoves(s: System, id: nat, op: DomOp)
      requires Rings(s)
      ensures SystemStep(s, Operated(s, id, op))
    {
      hide DomainSpec.Step;
    }

    /** Domains registered before and after are as they were. */
    lemma CommonMoves(s: System, s': System)
      requires Rings(s) && forall id :: id in s && id in s' ==> s'[id] == s[id]
      ensures SystemStep(s, s')
    {
    }

    // ----- the periodic tick

    /** One domain's share of the tick; the others do not change. */
    method VisitTick(d: RecoveryDomain, tick: nat) returns (escalate: bool)
      requires Valid() && d.id in live && live[d.id] == d
      requires d.barrierGeneration + 1 < U64_LIMIT
      modifies d, d.undo`count, d.undo`currentGeneration, d.undo.entries, mem
      ensures Valid()
      ensures escalate == Escalates(old(Snap())[d.id], tick)
      ensures Snap() == old(Snap())[d.id := Tick(old(Snap())[d.id], tick)]
      ensures Loaded(old(Snap())[d.id], |old(mem.bytes)|)
      ensures mem.bytes == TickMemory(old(Snap())[d.id], tick, old(mem.bytes))
    {
      hide Tables, Fits, RecoveryDomain.Valid, RecoveryDomain.View, Escalates, Tick, Loaded, TickMemory;
      assert DomainOk(d, mem);
      escalate := d.TickOnce(tick, mem);
      forall x | x in live && x != d.id
        ensures DomainOk(live[x], mem) && live[x].View() == old(live[x].View())
      {
        assert old(DomainOk(live[x], mem));
      }
    }

    /** The domains in slots below n have had their tick, the others not. */
    ghost predicate TickedBelow(s: System, s': System, tick: nat, n: nat)
      reads this
    {
      && Rings(s) && s.Keys == s'.Keys == live.Keys == slot.Keys
      && forall id :: id in live ==> s'[id] == if slot[id] < n then Tick(s[id], tick) else s[id]
    }

    /** None of the domains in slots below n asks for a reset. */
    ghost predicate CalmBelow(s: System, tick: nat, n: nat)
      reads this
    {
      forall id :: id in live && id in slot && id in s && slot[id] < n ==> !Escalates(s[id], tick)
    }

    /**
      tick: every domain takes its barrier and health check in slot order; the first one that misses its heartbeat
      with three or more failures ends the round and asks for a system reset.
    */
    method TickAll(tick: nat) returns (escalated: bool, ghost n: nat)
      requires Valid()
      requires forall id :: id in live ==> Snap()[id].barriers.generation + 1 < U64_LIMIT
      modifies Parts(), mem
      ensures Valid() && unchanged(this) && n <= count
      ensures TickedBelow(old(Snap()), Snap(), tick, n)
      ensures AllLoaded(old(Snap()), |old(mem.bytes)|)
      ensures mem.bytes == TickedMemory(old(Snap()), SlotIds(domains, count), tick, n, old(mem.bytes))
      ensures !escalated ==> n == count && CalmBelow(old(Snap()), tick, n)
      ensures escalated ==> n > 0 && CalmBelow(old(Snap()), tick, n - 1) && EscalatedAt(old(Snap()), tick, n - 1)
      ensures SystemStep(old(Snap()), Snap())
    {
      hide Tables, Separate, DomainOk, Parts, Snap, Tick, Escalates, TickedBelow, CalmBelow, EscalatedAt, SystemStep,
        TickedMemory, TickMemory, AllLoaded, Loaded;
      ghost var s, m := Snap(), mem.bytes;
      SnapWellFormed();
      TickStart(s, tick);
      TablesShape();
      ghost var slots := SlotIds(domains, count);
      var i := 0;
      TickedMemoryNone(s, slots, tick, m);
      while i < count
        invariant i <= count && Valid() && unchanged(this)
        invariant TickedBelow(s, Snap(), tick, i) && CalmBelow(s, tick, i)
        invariant mem.bytes == TickedMemory(s, slots, tick, i, m)
      {
        SlotFacts(i);
        TickedMemoryStep(s, slots, tick, i, m);
        if domains[i] != null {
          var d := domains[i];
          PartsHold(d);
          SnapAt(d);
          TickStep(s, Snap(), tick, i, d);
          var escalate := VisitTick(d, tick);
          if escalate {
            TickIsSystemStep(s, Snap(), tick, i + 1);
            return true, i + 1;
          }
        } else {
          TickSkip(s, Snap(), tick, i);
        }
        i := i + 1;
      }
      escalated, n := false, count;
      TickIsSystemStep(s, Snap(), tick, n);
    }

    lemma TickedMemoryNone(s: System, slots: seq<Option<nat>>, tick: nat, m: seq<Byte>)
      requires AllLoaded(s, |m|)
      ensures TickedMemory(s, slots, tick, 0, m) == m
    {
    }

    lemma TickIsSystemStep(s: System, s': System, tick: nat, n: nat)
      requires TickedBelow(s, s', tick, n)
      ensures SystemStep(s, s')
    {
      hide Tick;
      forall id | id in s
        ensures Moves(s[id], s'[id])
      {
        assert DomainSpec.Step(s[id], TickOp(tick)) == Tick(s[id], tick);
      }
    }

    // ----- the boot check

    /** One domain's share of the boot check; the others do not change. */
    method VisitBoot(d: RecoveryDomain)
      requires Valid() && d.id in live && live[d.id] == d
      modifies d`state, d`lastCrashFingerprint
      ensures Valid()
      ensures Snap() == old(Snap())[d.id := DomainSpec.Step(old(Snap())[d.id], BootOp)]
    {
      hide Tables, Fits, RecoveryDomain.Valid, RecoveryDomain.View, DomainSpec.Step;
      assert DomainOk(d, mem);
      RingOf(d);
      BootKeepsLog(d.View());
      d.CheckBootFingerprint();
      forall x | x in live && x != d.id
        ensures DomainOk(live[x], mem) && live[x].View() == old(live[x].View())
      {
        assert old(DomainOk(live[x], mem));
      }
    }

    lemma BootKeepsLog(d: Dom)
      requires |d.barriers.ring| == MAX_BARRIER_SNAPSHOTS
      ensures DomainSpec.Step(d, BootOp).log == d.log
    {
    }

    /** The domains in slots below n have been checked, the others not. */
    ghost predicate CheckedBelow(s: System, s': System, n: nat)
      reads this
    {
      && Rings(s) && s.Keys == s'.Keys == live.Keys == slot.Keys
      && forall id :: id in live ==> s'[id] == if slot[id] < n then DomainSpec.Step(s[id], BootOp) else s[id]
    }

    /** check_boot_fingerprints: every domain with a stored fingerprint and three failures starts degraded. */
    method CheckBootFingerprints()
      requires Valid()
      modifies Parts()
      ensures Valid() && unchanged(this)
      ensures Snap().Keys == old(Snap()).Keys && mem.bytes == old(mem.bytes)
      ensures forall id :: id in old(Snap()) ==>
        Snap()[id] == old(Snap())[id].(guard := CheckBoot(old(Snap())[id].guard))
      ensures SystemStep(old(Snap()), Snap())
    {
      hide Tables, Separate, DomainOk, Parts, Snap, CheckedBelow, CheckBoot, SystemStep;
      ghost var s := Snap();
      SnapWellFormed();
      CheckStart(s);
      var i := 0;
      while i < count
        invariant i <= count && Valid() && unchanged(this)
        invariant CheckedBelow(s, Snap(), i) && mem.bytes == old(mem.bytes)
      {
        SlotFacts(i);
        if domains[i] != null {
          var d := domains[i];
          PartsHold(d);
          SnapAt(d);
          CheckStep(s, Snap(), i, d);
          VisitBoot(d);
        } else {
          CheckSkip(s, Snap(), i);
        }
        i := i + 1;
      }
      CheckEnd(s, Snap());
    }

    lemma CheckStart(s: System)
      requires Tables(domains, directMap, count, live, slot) && Rings(s) && s.Keys == live.Keys
      ensures CheckedBelow(s, s, 0)
    {
      hide DomainSpec.Step;
    }

    lemma CheckSkip(s: System, s': System, i: nat)
      requires Tables(domains, directMap, count, live, slot) && i < count && domains[i] == null
      requires CheckedBelow(s, s', i)
      ensures CheckedBelow(s, s', i + 1)
    {
      hide DomainSpec.Step;
      SlotFacts(i);
    }

    lemma CheckStep(s: System, s': System, i: nat, d: RecoveryDomain)
      requires Tables(domains, directMap, count, live, slot) && i < count && domains[i] == d && CheckedBelow(s, s', i)
      ensures d.id in s && d.id in s' && s'[d.id] == s[d.id] && |s[d.id].barriers.ring| == MAX_BARRIER_SNAPSHOTS
      ensures CheckedBelow(s, s'[d.id := DomainSpec.Step(s[d.id], BootOp)], i + 1)
    {
      hide DomainSpec.Step;
      SlotFacts(i);
    }

    lemma CheckEnd(s: System, s': System)
      requires Tables(domains, directMap, count, live, slot) && CheckedBelow(s, s', count)
      ensures s'.Keys == s.Keys && forall id :: id in s ==> s'[id] == s[id].(guard := CheckBoot(s[id].guard))
      ensures SystemStep(s, s')
    {
      hide CheckBoot;
      SlotsBelowCount();
      forall id | id in s
        ensures s'[id] == s[id].(guard := CheckBoot(s[id].guard)) && Moves(s[id], s'[id])
      {
        assert DomainSpec.Step(s[id], BootOp) == s[id].(guard := CheckBoot(s[id].guard));
      }
    }

    lemma SlotsBelowCount()
      requires Tables(domains, directMap, count, live, slot)
      ensures forall id :: id in live ==> id in slot && slot[id] < count
    {
    }

    ghost predicate EscalatedAt(s: System, tick: nat, i: nat)
      reads this
    {
      exists id :: id in live && id in slot && id in s && slot[id] == i && Escalates(s[id], tick)
    }

    lemma TickStart(s: System, tick: nat)
      requires Tables(domains, directMap, count, live, slot) && Rings(s) && s.Keys == live.Keys
      ensures TickedBelow(s, s, tick, 0) && CalmBelow(s, tick, 0)
    {
      hide Tick;
    }

    lemma TickSkip(s: System, s': System, tick: nat, i: nat)
      requires Tables(domains, directMap, count, live, slot) && i < count && domains[i] == null
      requires TickedBelow(s, s', tick, i) && CalmBelow(s, tick, i)
      ensures TickedBelow(s, s', tick, i + 1) && CalmBelow(s, tick, i + 1)
    {
      hide Tick, Escalates;
      SlotFacts(i);
    }

    lemma TickStep(s: System, s': System, tick: nat, i: nat, d: RecoveryDomain)
      requires Tables(domains, directMap, count, live, slot) && i < count && domains[i] == d
      requires TickedBelow(s, s', tick, i) && CalmBelow(s, tick, i)
      ensures d.id in s && d.id in s' && s'[d.id] == s[d.id] && |s[d.id].barriers.ring| == MAX_BARRIER_SNAPSHOTS
      ensures TickedBelow(s, s'[d.id := Tick(s[d.id], tick)], tick, i + 1)
      ensures if Escalates(s[d.id], tick) then EscalatedAt(s, tick, i) else CalmBelow(s, tick, i + 1)
    {
      hide Tick, Escalates;
      SlotFacts(i);
    }

    lemma SlotFacts(i: nat)
      requires Tables(domains, directMap, count, live, slot) && i < count
      ensures |domains| == MAX_RECOVERY_DOMAINS && count <= |domains|
      ensures domains[i] != null ==> domains[i].id in live && live[domains[i].id] == domains[i]
      ensures forall id :: id in live ==> id in slot && (slot[id] == i <==> domains[i] != null && domains[i].id == id)
    {
    }
  }
}
