/** The undo log of a recovery domain: a fixed array of entries changed in place. */
module UndoLogs {
  import opened Bits
  import opened UndoSpec

  /** The FNV-1a loop. */
  method Checksum(data: seq<Byte>) returns (h: bv32)
    ensures h == Fnv(data)
  {
    hide FnvStep;
    h := 2166136261;
    var i := 0;
    while i < |data|
      invariant 0 <= i <= |data|
      invariant h == Fnv(data[..i])
    {
      assert data[..i + 1][..i] == data[..i];
      h := FnvStep(h, data[i]);
      i := i + 1;
    }
    assert data[..|data|] == data;
  }

  /** The starts found so far followed by those still to come, cut off at the capacity of the table. */
  function Capped(starts: seq<nat>, more: seq<nat>): seq<nat> {
    var all := starts + more;
    if |all| <= MAX_GEN_STARTS then all else all[..MAX_GEN_STARTS]
  }

  lemma CappedStep(starts: seq<nat>, i: nat, more: seq<nat>)
    requires |starts| <= MAX_GEN_STARTS
    ensures |starts| < MAX_GEN_STARTS ==> Capped(starts, [i] + more) == Capped(starts + [i], more)
    ensures |starts| == MAX_GEN_STARTS ==> Capped(starts, [i] + more) == Capped(starts, more) == starts
    ensures Capped(starts, []) == starts
  {
    assert starts + ([i] + more) == starts + [i] + more;
    assert starts + [] == starts;
  }

  lemma CappedAll(es: seq<UndoEntry>)
    ensures Capped([], RunStarts(es, 0, U64_LIMIT - 1)) == GenStarts(es)
  {
    assert [] + RunStarts(es, 0, U64_LIMIT - 1) == RunStarts(es, 0, U64_LIMIT - 1);
  }

  function Backwards(s: seq<UndoEntry>): (r: seq<UndoEntry>)
    ensures |r| == |s|
  {
    if s == [] then [] else [s[|s| - 1]] + Backwards(s[..|s| - 1])
  }

  lemma {:induction false} BackwardsAt(s: seq<UndoEntry>, k: nat)
    requires k < |s|
    ensures Backwards(s)[k] == s[|s| - 1 - k]
    decreases |s|
  {
    if k > 0 {
      BackwardsAt(s[..|s| - 1], k - 1);
    }
  }

  lemma BackwardsAppend(s: seq<UndoEntry>, e: UndoEntry)
    ensures Backwards(s + [e]) == [e] + Backwards(s)
  {
    assert (s + [e])[..|s|] == s;
  }

  /** One turn of the backward scan. */
  lemma ScanOne(es: seq<UndoEntry>, i: nat, keepGen: nat, temp: seq<UndoEntry>)
    requires i < |es| && Backwards(temp) == Pick(es, ScanFrom(es, i + 1, keepGen).idx)
    ensures var s, s', e := ScanFrom(es, i + 1, keepGen), ScanFrom(es, i, keepGen), es[i];
      if e.generation >= keepGen && e.ptr in s.seen then s' == s
      else s'.seen == (if e.generation >= keepGen && |s.seen| < MAX_SEEN then s.seen + [e.ptr] else s.seen)
           && Backwards(temp + [e]) == Pick(es, s'.idx)
  {
    hide Backwards;
    BackwardsAppend(temp, es[i]);
    var idx := ScanFrom(es, i + 1, keepGen).idx;
    assert Pick(es, [i] + idx) == [es[i]] + Pick(es, idx);
  }

  lemma ScanNothing(es: seq<UndoEntry>, keepGen: nat)
    ensures ScanFrom(es, |es|, keepGen) == Scan([], []) && Backwards([]) == Pick(es, [])
  {
  }

  lemma PopNothing(t: nat, m: seq<Byte>)
    ensures Keep([], t) == 0 && InMemory([], m) && AllWellFormed([]) && PopMemory([], t, m) == m
  {
  }

  /** The kernel memory that undo entries point into. */
  class Memory {
    var bytes: seq<Byte>

    constructor (initial: seq<Byte>)
      ensures bytes == initial
    {
      bytes := initial;
    }

    /** raw::write_field: copy `size` bytes to address `ptr`. */
    method Write(ptr: nat, value: seq<Byte>, size: nat)
      requires size <= |value| && ptr + size <= |bytes|
      modifies this
      ensures bytes == old(bytes)[..ptr] + value[..size] + old(bytes)[ptr + size..]
    {
      bytes := bytes[..ptr] + value[..size] + bytes[ptr + size..];
    }
  }

  class UndoLog {
    const entries: array<UndoEntry>
    var count: nat
    var currentGeneration: nat

    ghost predicate Valid()
      reads this, entries
    {
      && entries.Length == MAX_UNDO_ENTRIES && count <= entries.Length
      && currentGeneration < U64_LIMIT
      && Inv(entries[..count], currentGeneration)
    }

    ghost function Contents(): seq<UndoEntry>
      reads this, entries
    {
      if count <= entries.Length then entries[..count] else entries[..]
    }

    constructor ()
      ensures Valid() && Contents() == [] && currentGeneration == 0 && fresh(entries)
    {
      entries := new UndoEntry[MAX_UNDO_ENTRIES](_ => UndoEntry(0, 0, Zeros(8), 0, 0));
      count := 0;
      currentGeneration := 0;
    }

    /** Is the field already recorded in the current generation?  The scan stops at the first older entry. */
    method AlreadyRecorded(ptr: nat) returns (found: bool)
      requires Valid()
      ensures found <==> Recorded(Contents(), currentGeneration, ptr)
    {
      hide UniqueKeys, AllWellFormed;
      ghost var es := Contents();
      if count > 0 {
        var last := entries[count - 1];
        if last.ptr == ptr && last.generation == currentGeneration {
          assert es[count - 1] == last;
          return true;
        }
      }
      var i := count;
      while i > 0
        invariant 0 <= i <= count
        invariant forall j :: i <= j < count ==> es[j].generation != currentGeneration || es[j].ptr != ptr
      {
        i := i - 1;
        assert es[i] == entries[i] && es[i].generation <= currentGeneration;
        if entries[i].generation < currentGeneration {
          assert forall j :: 0 <= j < i ==> es[j].generation <= es[i].generation;
          return false;
        }
        if entries[i].ptr == ptr {
          return true;
        }
      }
      found := false;
    }

    /**
      record: remember the old value of a field once per generation.  `ok` is false where the kernel's write would be
      past the end of the log, which stops it with a panic; the log is then as it was.
    */
    method Record(ptr: nat, value: seq<Byte>) returns (ok: bool)
      requires Valid()
      modifies this`count, entries
      ensures Valid()
      ensures ok <==> HasRoom(old(Contents()), currentGeneration, ptr)
      ensures ok ==> Contents() == Recording(old(Contents()), currentGeneration, ptr, value)
      ensures !ok ==> Contents() == old(Contents())
    {
      hide Inv, Recorded, Emergency, Fnv;
      ghost var es := Contents();
      var found := AlreadyRecorded(ptr);
      if found {
        return true;
      }
      if count >= MAX_UNDO_ENTRIES {
        EmergencyCompact(if currentGeneration > 0 then currentGeneration - 1 else 0);
      }
      assert Contents() == MakeRoom(es, currentGeneration);
      if count >= MAX_UNDO_ENTRIES {
        EmergencyIdle(es, PreviousGeneration(currentGeneration));
        return false;
      }
      RecordingInv(es, currentGeneration, ptr, value);
      var size := Min(|value|, 8);
      var checksum := Checksum(value[..size]);
      entries[count] := UndoEntry(currentGeneration, ptr, value[..size] + Zeros(8 - size), size, checksum);
      count := count + 1;
      assert Contents() == Recording(es, currentGeneration, ptr, value);
      ok := true;
    }

    /** emergency_compact: one backward scan into a scratch list, then the kept entries in order again. */
    method EmergencyCompact(keepGen: nat)
      requires Valid()
      modifies this`count, entries
      ensures Valid()
      ensures Contents() == Emergency(old(Contents()), keepGen)
    {
      hide Inv, Backwards, ScanFrom, Pick;
      ghost var es := Contents();
      PickInv(es, ScanFrom(es, 0, keepGen).idx, currentGeneration);
      var temp := BackwardScan(keepGen);
      ghost var kept := Backwards(temp);
      var w := 0;
      var i := |temp|;
      while i > 0
        invariant 0 <= i <= |temp| <= MAX_UNDO_ENTRIES && w == |temp| - i
        invariant forall j :: 0 <= j < w ==> entries[j] == kept[j]
      {
        i := i - 1;
        BackwardsAt(temp, w);
        entries[w] := temp[i];
        w := w + 1;
      }
      count := w;
      assert Contents() == kept;
    }

    /** The scan of emergency_compact; `temp` holds the kept entries newest first. */
    method BackwardScan(keepGen: nat) returns (temp: seq<UndoEntry>)
      requires Valid()
      ensures Backwards(temp) == Emergency(Contents(), keepGen)
    {
      hide Inv, ScanFrom, Backwards, Pick;
      ghost var es := Contents();
      temp := [];
      var seen: seq<nat> := [];
      var i := count;
      ScanNothing(es, keepGen);
      while i > 0
        invariant 0 <= i <= count && |temp| <= count - i
        invariant seen == ScanFrom(es, i, keepGen).seen && Backwards(temp) == Pick(es, ScanFrom(es, i, keepGen).idx)
      {
        i := i - 1;
        var entry := entries[i];
        ScanOne(es, i, keepGen, temp);
        if entry.generation >= keepGen {
          if entry.ptr in seen {
            continue;
          }
          if |seen| < MAX_SEEN {
            seen := seen + [entry.ptr];
          }
          if |temp| < MAX_UNDO_ENTRIES {
            temp := temp + [entry];
          }
        } else if |temp| < MAX_UNDO_ENTRIES {
          temp := temp + [entry];
        }
      }
    }

    // ----- rolling back

    /** Guarded write-back of one entry. */
    static method WriteBackGuarded(e: UndoEntry, mem: Memory)
      requires WellFormed(e) && e.End() <= |mem.bytes|
      modifies mem
      ensures mem.bytes == Apply(e, old(mem.bytes))
    {
      hide Fnv;
      var currentChecksum := Checksum(mem.bytes[e.ptr..e.ptr + e.size]);
      if currentChecksum == e.checksum {
        mem.Write(e.ptr, e.oldValue, e.size);
      }
    }

    /** rollback_to: pop and undo entries of generation `target` or later, then compact a log still over half full. */
    method RollbackTo(target: nat, mem: Memory) returns (rolledBack: nat)
      requires Valid() && InMemory(Contents(), mem.bytes)
      modifies this`count, entries, mem
      ensures Valid()
      ensures Contents() == RolledBack(old(Contents()), target)
      ensures rolledBack == |old(Contents())| - Keep(old(Contents()), target)
      ensures mem.bytes == RollbackMemory(old(Contents()), target, old(mem.bytes))
    {
      hide Inv, Fnv, CutAt, Keep, RollbackMemory, WellFormed;
      ghost var es, gen := Contents(), currentGeneration;
      InvParts(es, gen);
      RolledBackInv(es, gen, target);
      rolledBack := PopAll(target, mem);
      ghost var rest := es[..Keep(es, target)];
      SliceInv(es, gen, 0, |rest|);
      assert Contents() == rest == es[0..|rest|];
      if count > MAX_UNDO_ENTRIES / 2 {
        CompactKeeping(4);
      }
    }

    lemma InvParts(es: seq<UndoEntry>, gen: nat)
      requires Inv(es, gen)
      ensures |es| <= MAX_UNDO_ENTRIES && AllWellFormed(es)
    {
    }

    /** The popping loop of rollback_to. */
    method PopAll(target: nat, mem: Memory) returns (rolledBack: nat)
      requires count <= entries.Length
      requires AllWellFormed(Contents()) && InMemory(Contents(), mem.bytes)
      modifies this`count, mem
      ensures count == Keep(old(Contents()), target) && count <= entries.Length && entries[..] == old(entries[..])
      ensures rolledBack == old(count) - count
      ensures mem.bytes == RollbackMemory(old(Contents()), target, old(mem.bytes))
    {
      hide Apply, RollbackMemory, PopMemory, Keep, InMemory, WellFormed, AllWellFormed;
      ghost var es, m := Contents(), mem.bytes;
      PopIsRollback(es, target, m);
      assert es[..count] == es;
      rolledBack := 0;
      var more := true;
      while more && count > 0
        invariant count <= old(count) && rolledBack == old(count) - count && entries[..] == old(entries[..])
        invariant InMemory(es[..count], mem.bytes) && AllWellFormed(es[..count])
        invariant Keep(es[..count], target) == Keep(es, target)
        invariant PopMemory(es[..count], target, mem.bytes) == PopMemory(es, target, m)
        invariant !more ==> Keep(es[..count], target) == count && PopMemory(es[..count], target, mem.bytes) == mem.bytes
        decreases more, count
      {
        ghost var now := es[..count];
        assert now[..count - 1] == es[..count - 1] && now[count - 1] == es[count - 1];
        PopStep(now, target, mem.bytes);
        var entry := entries[count - 1];
        if entry.generation < target {
          more := false;
        } else {
          WriteBackGuarded(entry, mem);
          count := count - 1;
          rolledBack := rolledBack + 1;
        }
      }
      if count == 0 {
        PopNothing(target, mem.bytes);
      }
    }

    // ----- compacting

    /** Where each of the first sixteen generations starts. */
    method FindGenStarts() returns (starts: seq<nat>)
      requires count <= entries.Length
      ensures starts == GenStarts(Contents())
    {
      hide Capped, GenStarts;
      ghost var es := Contents();
      CappedAll(es);
      starts := [];
      var prev: nat := U64_LIMIT - 1;
      var i := 0;
      while i < count
        invariant 0 <= i <= count && |starts| <= MAX_GEN_STARTS
        invariant Capped(starts, RunStarts(es, i, prev)) == GenStarts(es)
      {
        assert es[i] == entries[i];
        if entries[i].generation != prev {
          CappedStep(starts, i, RunStarts(es, i + 1, entries[i].generation));
          if |starts| < MAX_GEN_STARTS {
            starts := starts + [i];
          }
          prev := entries[i].generation;
        }
        i := i + 1;
      }
      CappedStep(starts, 0, []);
    }

    /** Moves `n` entries starting at `from` to the front, one by one from the left. */
    method SlideDown(from: nat, n: nat)
      requires from + n <= entries.Length
      modifies entries
      ensures entries[..n] == old(entries[from..from + n])
    {
      ghost var es := entries[..];
      var i := 0;
      while i < n
        invariant 0 <= i <= n
        invariant forall j :: 0 <= j < i ==> entries[j] == es[from + j]
        invariant forall j :: i <= j < entries.Length ==> entries[j] == es[j]
      {
        entries[i] := entries[from + i];
        i := i + 1;
      }
    }

    /** compact_keeping: slide the entries of the newest generations to the front. */
    method CompactKeeping(generations: nat)
      requires Valid()
      modifies this`count, entries
      ensures Valid()
      ensures Contents() == Compacted(old(Contents()), generations)
    {
      hide Inv, GenStarts;
      SliceInv(Contents(), currentGeneration, CutAt(Contents(), generations), count);
      assert Contents()[CutAt(Contents(), generations)..count] == Compacted(Contents(), generations);
      if count == 0 {
        return;
      }
      ghost var es := Contents();
      var starts := FindGenStarts();
      var keep := Min(generations, |starts|);
      if |starts| > keep && keep > 0 {
        var keepFrom := starts[|starts| - keep];
        var newCount := count - keepFrom;
        SlideDown(keepFrom, newCount);
        count := newCount;
        assert Contents() == es[keepFrom..] == Compacted(es, generations);
      }
    }
  }
}
