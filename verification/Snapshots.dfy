/** The registry of device snapshots: dense slots, and a restore in stable priority order. */
module Snapshots {
  import opened Results
  import opened Graphs

  const MAX_DEVICE_SNAPSHOTS: nat := 16

  datatype Register = Register(offset: nat, value: nat)
  datatype Snapshot = Snapshot(deviceId: nat, mmioBase: nat, registers: seq<Register>, priority: nat)

  /** A register's address, and a write the restore callback receives. */
  datatype Address = Address(base: nat, offset: nat)
  datatype RegisterWrite = RegisterWrite(at: Address, value: nat)

  // ----- restore order

  /** Lower priority first, registration slot as the tie-breaker. */
  predicate Before(snaps: seq<Snapshot>, i: nat, j: nat)
    requires i < |snaps| && j < |snaps|
  {
    snaps[i].priority < snaps[j].priority || (snaps[i].priority == snaps[j].priority && i < j)
  }

  ghost predicate Ascending(snaps: seq<Snapshot>, order: seq<nat>) {
    && (forall k :: 0 <= k < |order| ==> order[k] < |snaps|)
    && forall a, b :: 0 <= a < b < |order| ==> Before(snaps, order[a], order[b])
  }

  /** Every slot once, in stable priority order. */
  ghost predicate Ranked(snaps: seq<Snapshot>, order: seq<nat>) {
    && Ascending(snaps, order)
    && |order| == |snaps|
    && NoRepeats(order)
    && forall i: nat :: i < |snaps| ==> i in order
  }

  function SlotSet(n: nat): (r: set<nat>)
    ensures |r| == n && forall i: nat :: i in r <==> i < n
  {
    if n == 0 then {} else SlotSet(n - 1) + {n - 1}
  }

  lemma AscendingIsRanked(snaps: seq<Snapshot>, order: seq<nat>)
    requires Ascending(snaps, order) && |order| == |snaps|
    ensures Ranked(snaps, order)
  {
    Pigeonhole(order, SlotSet(|snaps|));
  }

  /** Two ranked orders agree as far as they have been compared, and so on the next slot. */
  lemma {:induction false} RankedPrefix(snaps: seq<Snapshot>, p: seq<nat>, q: seq<nat>, k: nat)
    requires Ranked(snaps, p) && Ranked(snaps, q) && k <= |snaps|
    ensures p[..k] == q[..k]
  {
    if k > 0 {
      RankedPrefix(snaps, p, q, k - 1);
      assert p[k - 1] in q && q[k - 1] in p;
      var a :| 0 <= a < |q| && q[a] == p[k - 1];
      var b :| 0 <= b < |p| && p[b] == q[k - 1];
      assert p[k - 1] == q[k - 1];
      assert p[..k] == p[..k - 1] + [p[k - 1]] && q[..k] == q[..k - 1] + [q[k - 1]];
    }
  }

  /** The restore order is determined by the registered snapshots. */
  lemma RankedUnique(snaps: seq<Snapshot>, p: seq<nat>, q: seq<nat>)
    requires Ranked(snaps, p) && Ranked(snaps, q)
    ensures p == q
  {
    RankedPrefix(snaps, p, q, |snaps|);
    assert p[..|snaps|] == p && q[..|snaps|] == q;
  }

  // ----- register writes

  function PutBack(base: nat, r: Register): RegisterWrite { RegisterWrite(Address(base, r.offset), r.value) }

  function WritesOf(s: Snapshot): (w: seq<RegisterWrite>) {
    if s.mmioBase == 0 then []
    else seq(|s.registers|, i requires 0 <= i < |s.registers| => PutBack(s.mmioBase, s.registers[i]))
  }

  function WritesInOrder(snaps: seq<Snapshot>, order: seq<nat>): seq<RegisterWrite>
    requires forall k :: 0 <= k < |order| ==> order[k] < |snaps|
  {
    if order == [] then []
    else WritesInOrder(snaps, order[..|order| - 1]) + WritesOf(snaps[order[|order| - 1]])
  }

  /** Slots of devices that can be restored: their base address is known. */
  function LiveSlots(snaps: seq<Snapshot>, order: seq<nat>): set<nat> {
    set i | i in order && i < |snaps| && snaps[i].mmioBase != 0
  }

  function Live(snaps: seq<Snapshot>): set<nat> {
    set i: nat | i < |snaps| && snaps[i].mmioBase != 0
  }

  lemma RankedLive(snaps: seq<Snapshot>, order: seq<nat>)
    requires Ranked(snaps, order)
    ensures LiveSlots(snaps, order) == Live(snaps)
  {
  }

  /** The writes of one device, register by register. */
  lemma WritesOfAt(s: Snapshot, k: nat)
    requires k < |s.registers| && s.mmioBase != 0
    ensures |WritesOf(s)| == |s.registers|
    ensures WritesOf(s)[k] == RegisterWrite(Address(s.mmioBase, s.registers[k].offset), s.registers[k].value)
  {
  }

  /** The writes of an order are those of its parts one after the other, and of one device its own. */
  lemma {:induction false} WritesFollowOrder(snaps: seq<Snapshot>, a: seq<nat>, b: seq<nat>)
    requires (forall k :: 0 <= k < |a| ==> a[k] < |snaps|) && forall k :: 0 <= k < |b| ==> b[k] < |snaps|
    ensures WritesInOrder(snaps, a + b) == WritesInOrder(snaps, a) + WritesInOrder(snaps, b)
    ensures |b| == 1 ==> WritesInOrder(snaps, b) == WritesOf(snaps[b[0]])
    decreases |b|
  {
    hide WritesOf;
    if b == [] {
      assert a + b == a;
    } else {
      var front := b[..|b| - 1];
      assert (a + b)[..|a + b| - 1] == a + front;
      WritesFollowOrder(snaps, a, front);
      assert |b| == 1 ==> front == [];
    }
  }

  // ----- capture and restore

  type Memory = Address -> nat

  function CapturedBy(s: Snapshot, m: Memory): (r: Snapshot)
    ensures r.deviceId == s.deviceId && r.mmioBase == s.mmioBase && r.priority == s.priority
    ensures |r.registers| == |s.registers|
    ensures forall i :: 0 <= i < |s.registers| ==> r.registers[i].offset == s.registers[i].offset
  {
    s.(registers := seq(|s.registers|, i requires 0 <= i < |s.registers| =>
      Register(s.registers[i].offset, m(Address(s.mmioBase, s.registers[i].offset)))))
  }

  function Store(m: Memory, w: RegisterWrite): Memory {
    a => if a == w.at then w.value else m(a)
  }

  function Stored(m: Memory, ws: seq<RegisterWrite>): Memory {
    if ws == [] then m else Store(Stored(m, ws[..|ws| - 1]), ws[|ws| - 1])
  }

  ghost predicate Writes(ws: seq<RegisterWrite>, a: Address) { exists k :: 0 <= k < |ws| && ws[k].at == a }

  /** Every write puts back what m holds. */
  ghost predicate Faithful(ws: seq<RegisterWrite>, m: Memory) {
    forall k :: 0 <= k < |ws| ==> ws[k].value == m(ws[k].at)
  }

  lemma {:induction false} FaithfulStores(ws: seq<RegisterWrite>, m: Memory, now: Memory, a: Address)
    requires Faithful(ws, m)
    ensures Stored(now, ws)(a) == if Writes(ws, a) then m(a) else now(a)
    decreases |ws|
  {
    if ws != [] {
      var front := ws[..|ws| - 1];
      FaithfulStores(front, m, now, a);
      if ws[|ws| - 1].at != a {
        assert Writes(front, a) <==> Writes(ws, a) by {
          if Writes(ws, a) {
            var k :| 0 <= k < |ws| && ws[k].at == a;
            assert front[k].at == a;
          }
          if Writes(front, a) {
            var k :| 0 <= k < |front| && front[k].at == a;
            assert ws[k].at == a;
          }
        }
      }
    }
  }

  ghost predicate AllCaptured(snaps: seq<Snapshot>, m: Memory) {
    forall i :: 0 <= i < |snaps| ==> snaps[i] == CapturedBy(snaps[i], m)
  }

  /** The address is a register of a registered device with a known base. */
  ghost predicate Covered(snaps: seq<Snapshot>, a: Address) {
    exists i :: 0 <= i < |snaps| && Owns(snaps[i], a)
  }

  ghost predicate Owns(s: Snapshot, a: Address) {
    s.mmioBase != 0 && s.mmioBase == a.base && exists r :: r in s.registers && r.offset == a.offset
  }

  lemma WritesOfOwned(s: Snapshot, m: Memory, a: Address)
    ensures Writes(WritesOf(s), a) <==> Owns(s, a)
    ensures s == CapturedBy(s, m) ==> Faithful(WritesOf(s), m)
  {
    if Owns(s, a) {
      var i :| 0 <= i < |s.registers| && s.registers[i].offset == a.offset;
      assert WritesOf(s)[i].at == a;
    }
    if s == CapturedBy(s, m) {
      assert forall i :: 0 <= i < |s.registers| ==> s.registers[i] == CapturedBy(s, m).registers[i];
    }
  }

  lemma WritesConcat(v: seq<RegisterWrite>, w: seq<RegisterWrite>, m: Memory, a: Address)
    ensures Writes(v + w, a) <==> Writes(v, a) || Writes(w, a)
    ensures Faithful(v, m) && Faithful(w, m) ==> Faithful(v + w, m)
  {
    var all := v + w;
    if Writes(v, a) {
      var k :| 0 <= k < |v| && v[k].at == a;
      assert all[k].at == a;
    }
    if Writes(w, a) {
      var k :| 0 <= k < |w| && w[k].at == a;
      assert all[k + |v|].at == a;
    }
  }

  ghost predicate CoveredBy(snaps: seq<Snapshot>, order: seq<nat>, a: Address) {
    exists i :: i in order && i < |snaps| && Owns(snaps[i], a)
  }

  lemma {:induction false} OrderWrites(snaps: seq<Snapshot>, order: seq<nat>, m: Memory, a: Address)
    requires forall k :: 0 <= k < |order| ==> order[k] < |snaps|
    ensures Writes(WritesInOrder(snaps, order), a) <==> CoveredBy(snaps, order, a)
    ensures AllCaptured(snaps, m) ==> Faithful(WritesInOrder(snaps, order), m)
    decreases |order|
  {
    hide Owns, WritesOf, CapturedBy, Writes, Faithful;
    if order == [] {
      NothingWritten(m, a);
    } else {
      var front, i := order[..|order| - 1], order[|order| - 1];
      OrderWrites(snaps, front, m, a);
      WritesOfOwned(snaps[i], m, a);
      WritesConcat(WritesInOrder(snaps, front), WritesOf(snaps[i]), m, a);
      assert order == front + [i];
    }
  }

  lemma NothingWritten(m: Memory, a: Address)
    ensures !Writes([], a) && Faithful([], m)
  {
  }

  /**
    Capture then restore: whatever happened to the devices in between, every captured register of a device with a
    known base is back at its captured value, and no other address changes.
  */
  lemma RestoreBringsBack(snaps: seq<Snapshot>, order: seq<nat>, m: Memory, now: Memory, a: Address)
    requires Ranked(snaps, order) && AllCaptured(snaps, m)
    ensures Stored(now, WritesInOrder(snaps, order))(a) == if Covered(snaps, a) then m(a) else now(a)
  {
    hide Owns, CapturedBy, WritesInOrder, Stored, Faithful, Writes;
    OrderWrites(snaps, order, m, a);
    FaithfulStores(WritesInOrder(snaps, order), m, now, a);
    assert CoveredBy(snaps, order, a) <==> Covered(snaps, a);
  }

  // ----- the slots

  ghost predicate Dense(slots: seq<Option<Snapshot>>, count: nat) {
    && count <= |slots| == MAX_DEVICE_SNAPSHOTS
    && (forall i :: 0 <= i < count ==> slots[i].Some?)
    && (forall i :: count <= i < |slots| ==> slots[i].None?)
  }

  function Listed(slots: seq<Option<Snapshot>>, count: nat): (r: seq<Snapshot>)
    requires count <= |slots| && forall i :: 0 <= i < count ==> slots[i].Some?
    ensures |r| == count && forall i :: 0 <= i < count ==> r[i] == slots[i].value
  {
    seq(count, i requires 0 <= i < count => slots[i].value)
  }

  /** The last entry takes the place of the removed one. */
  function SwapRemoved(s: seq<Snapshot>, i: nat): seq<Snapshot>
    requires i < |s|
  {
    s[i := s[|s| - 1]][..|s| - 1]
  }

  /** The last entry stands where the removed one was, and the others where they were. */
  lemma SwapRemovedAt(s: seq<Snapshot>, i: nat, j: nat)
    requires i < |s| && j < |s| - 1
    ensures |SwapRemoved(s, i)| == |s| - 1
    ensures SwapRemoved(s, i)[j] == if j == i then s[|s| - 1] else s[j]
  {
  }

  /** Exactly the removed entry is gone. */
  lemma SwapRemovedContents(s: seq<Snapshot>, i: nat)
    requires i < |s|
    ensures multiset(SwapRemoved(s, i)) == multiset(s) - multiset{s[i]}
  {
    var last := s[|s| - 1];
    assert s == s[..|s| - 1] + [last];
    if i < |s| - 1 {
      assert s[i := last][..|s| - 1] == s[..|s| - 1][i := last];
    } else {
      assert s[i := last][..|s| - 1] == s[..|s| - 1];
    }
  }

  ghost predicate FirstWithId(s: seq<Snapshot>, id: nat, i: nat) {
    i < |s| && s[i].deviceId == id && forall j :: 0 <= j < i ==> s[j].deviceId != id
  }

  ghost predicate HasId(s: seq<Snapshot>, id: nat) { exists i :: 0 <= i < |s| && s[i].deviceId == id }

  class DeviceSnapshotRegistry {
    const slots: array<Option<Snapshot>>
    var count: nat
    var initCaptured: bool

    ghost predicate Valid()
      reads this, slots
    {
      Dense(slots[..], count)
    }

    ghost function Contents(): (r: seq<Snapshot>)
      requires Valid()
      reads this, slots
    {
      Listed(slots[..], count)
    }

    constructor ()
      ensures Valid() && fresh(slots) && Contents() == [] && !initCaptured
    {
      slots := new Option<Snapshot>[MAX_DEVICE_SNAPSHOTS](_ => None);
      count := 0;
      initCaptured := false;
    }

    method Register(s: Snapshot) returns (ok: bool)
      requires Valid()
      modifies this`count, slots
      ensures Valid()
      ensures ok <==> |old(Contents())| < 16
      ensures Contents() == if ok then old(Contents()) + [s] else old(Contents())
    {
      if count >= MAX_DEVICE_SNAPSHOTS { return false; }
      slots[count] := Some(s);
      count := count + 1;
      ok := true;
    }

    method Unregister(deviceId: nat) returns (ok: bool, ghost at: nat)
      requires Valid()
      modifies this`count, slots
      ensures Valid()
      ensures ok <==> HasId(old(Contents()), deviceId)
      ensures !ok ==> Contents() == old(Contents())
      ensures ok ==> FirstWithId(old(Contents()), deviceId, at) && Contents() == SwapRemoved(old(Contents()), at)
    {
      ghost var before := Contents();
      at := 0;
      var i := 0;
      while i < count
        invariant 0 <= i <= count && count == old(count) && slots[..] == old(slots[..])
        invariant forall j :: 0 <= j < i ==> before[j].deviceId != deviceId
      {
        assert slots[i] == Some(before[i]);
        if slots[i].value.deviceId == deviceId {
          at := i;
          slots[i] := None;
          if i < count - 1 {
            slots[i] := slots[count - 1];
            slots[count - 1] := None;
          }
          count := count - 1;
          return true, at;
        }
        i := i + 1;
      }
      ok := false;
    }

    /** Reads the registers of every registered device. */
    method CaptureAllInit(m: Memory)
      requires Valid()
      modifies this`initCaptured, slots
      ensures Valid() && initCaptured
      ensures |Contents()| == |old(Contents())|
      ensures forall i :: 0 <= i < |Contents()| ==> Contents()[i] == CapturedBy(old(Contents())[i], m)
      ensures AllCaptured(Contents(), m)
    {
      hide CapturedBy;
      ghost var before := Contents();
      var i := 0;
      while i < count
        invariant 0 <= i <= count && Valid()
        invariant forall k :: 0 <= k < i ==> slots[k] == Some(CapturedBy(before[k], m))
        invariant forall k :: i <= k < count ==> slots[k] == Some(before[k])
      {
        slots[i] := Some(CapturedBy(slots[i].value, m));
        i := i + 1;
      }
      initCaptured := true;
      forall k | 0 <= k < count
        ensures Contents()[k] == CapturedBy(before[k], m) == CapturedBy(Contents()[k], m)
      {
        CaptureTwice(before[k], m);
      }
    }

    /** The insertion sort of the slot indices. */
    method SortIndices() returns (sorted: array<nat>)
      requires Valid()
      ensures fresh(sorted) && count <= sorted.Length && Ranked(Contents(), sorted[..count])
    {
      sorted := new nat[MAX_DEVICE_SNAPSHOTS](i => i);
      ghost var snaps := Contents();
      var i := 1;
      while i < count
        invariant 1 <= i && (count > 0 ==> i <= count)
        invariant forall k :: 0 <= k < sorted.Length ==> sorted[k] < (if k < i then i else k + 1)
        invariant forall k :: i <= k < sorted.Length ==> sorted[k] == k
        invariant count > 0 ==> Ascending(snaps, sorted[..i])
      {
        SinkIndex(sorted, i);
        i := i + 1;
      }
      assert Ascending(snaps, sorted[..count]);
      AscendingIsRanked(snaps, sorted[..count]);
    }

    /** The inner loop: index i sinks below the larger priorities before it. */
    method SinkIndex(sorted: array<nat>, i: nat)
      requires Valid() && (sorted as object) != slots && 0 < i < count <= sorted.Length
      requires sorted[i] == i && Ascending(Contents(), sorted[..i]) && forall k :: 0 <= k < i ==> sorted[k] < i
      modifies sorted
      ensures Ascending(Contents(), sorted[..i + 1]) && forall k :: 0 <= k <= i ==> sorted[k] <= i
      ensures forall k :: i < k < sorted.Length ==> sorted[k] == old(sorted[k])
    {
      ghost var snaps := Contents();
      var j := i;
      while j > 0
        invariant 0 <= j <= i && sorted[j] == i && slots[..] == old(slots[..])
        invariant forall k :: 0 <= k <= i && k != j ==> sorted[k] < i
        invariant forall a, b :: 0 <= a < b <= i && a != j && b != j ==> Before(snaps, sorted[a], sorted[b])
        invariant forall b :: j < b <= i ==> Before(snaps, i, sorted[b])
        invariant forall k :: i < k < sorted.Length ==> sorted[k] == old(sorted[k])
      {
        var prev := Priority(slots[sorted[j - 1]]);
        var curr := Priority(slots[sorted[j]]);
        if prev <= curr { break; }
        sorted[j - 1], sorted[j] := sorted[j], sorted[j - 1];
        j := j - 1;
      }
      assert forall a :: 0 <= a < j ==> Before(snaps, sorted[a], i);
    }

    /** restore_all: the counts, and the register writes in the order they are made. */
    method RestoreAll() returns (success: nat, failed: nat, writes: seq<RegisterWrite>, ghost order: seq<nat>)
      requires Valid()
      ensures Ranked(Contents(), order)
      ensures forall a, b :: 0 <= a < b < |order| ==>
        && Contents()[order[a]].priority <= Contents()[order[b]].priority
        && (Contents()[order[a]].priority == Contents()[order[b]].priority ==> order[a] < order[b])
      ensures writes == WritesInOrder(Contents(), order)
      ensures success == |Live(Contents())| && success + failed == |Contents()|
    {
      hide WritesOf, Ranked, LiveSlots, Live;
      var sorted := SortIndices();
      ghost var snaps := Contents();
      order := sorted[..count];
      RankedBounds(snaps, order);
      success, failed, writes := 0, 0, [];
      assert LiveSlots(snaps, order[..0]) == {} by { NoneLive(snaps); }
      var t := 0;
      while t < count
        invariant 0 <= t <= count && order == sorted[..count]
        invariant writes == WritesInOrder(snaps, order[..t])
        invariant success == |LiveSlots(snaps, order[..t])| && success + failed == t
      {
        assert sorted[t] == order[t] < |snaps|;
        var snap := slots[sorted[t]];
        assert order[..t + 1] == order[..t] + [order[t]];
        LiveStep(snaps, order, t);
        var ok, ws := Restore(snap.value);
        writes := writes + ws;
        if ok { success := success + 1; } else { failed := failed + 1; }
        t := t + 1;
      }
      assert order[..count] == order;
      RankedLive(snaps, order);
    }
  }

  function Priority(slot: Option<Snapshot>): nat { if slot.Some? then slot.value.priority else 0 }

  lemma CaptureTwice(s: Snapshot, m: Memory)
    ensures CapturedBy(CapturedBy(s, m), m) == CapturedBy(s, m)
  {
  }

  lemma RankedBounds(snaps: seq<Snapshot>, order: seq<nat>)
    requires Ranked(snaps, order)
    ensures forall k :: 0 <= k < |order| ==> order[k] < |snaps|
    ensures forall a, b :: 0 <= a < b < |order| ==>
      && snaps[order[a]].priority <= snaps[order[b]].priority
      && (snaps[order[a]].priority == snaps[order[b]].priority ==> order[a] < order[b])
  {
    assert forall a, b :: 0 <= a < b < |order| ==> Before(snaps, order[a], order[b]);
  }

  lemma NoneLive(snaps: seq<Snapshot>)
    ensures LiveSlots(snaps, []) == {}
  {
  }

  lemma LiveStep(snaps: seq<Snapshot>, order: seq<nat>, t: nat)
    requires Ranked(snaps, order) && t < |order|
    ensures |LiveSlots(snaps, order[..t + 1])|
      == |LiveSlots(snaps, order[..t])| + (if snaps[order[t]].mmioBase != 0 then 1 else 0)
  {
    var i := order[t];
    assert order[..t + 1] == order[..t] + [i];
    assert i !in order[..t];
    if snaps[i].mmioBase != 0 {
      assert LiveSlots(snaps, order[..t + 1]) == LiveSlots(snaps, order[..t]) + {i};
    } else {
      assert LiveSlots(snaps, order[..t + 1]) == LiveSlots(snaps, order[..t]);
    }
  }

  /** One device: nothing is written to a device without a base address. */
  method Restore(s: Snapshot) returns (ok: bool, writes: seq<RegisterWrite>)
    ensures ok <==> s.mmioBase != 0
    ensures writes == WritesOf(s)
  {
    writes := [];
    if s.mmioBase == 0 { return false, []; }
    var i := 0;
    while i < |s.registers|
      invariant 0 <= i <= |s.registers| && writes == WritesOf(s)[..i]
    {
      writes := writes + [PutBack(s.mmioBase, s.registers[i])];
      i := i + 1;
    }
    ok := true;
  }
}
