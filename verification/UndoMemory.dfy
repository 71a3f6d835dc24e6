/** What undoing a log does to memory: bytes it cannot touch, logs that cannot disturb each other, and the intent. */
module UndoMemory {
  import opened UndoSpec

  // ----- footprints

  predicate Covers(e: UndoEntry, i: nat) {
    e.ptr <= i < e.End()
  }

  /** Byte i belongs to a field the log records. */
  ghost predicate Touches(es: seq<UndoEntry>, i: nat) {
    exists k :: 0 <= k < |es| && Covers(es[k], i)
  }

  lemma TouchesSlice(es: seq<UndoEntry>, lo: nat, hi: nat, i: nat)
    requires lo <= hi <= |es|
    ensures Touches(es[lo..hi], i) ==> Touches(es, i)
  {
    if k :| 0 <= k < hi - lo && Covers(es[lo..hi][k], i) {
      assert Covers(es[lo + k], i);
    }
  }

  lemma ApplyByte(e: UndoEntry, m: seq<Byte>, i: nat)
    requires WellFormed(e) && e.End() <= |m| && i < |m| && !Covers(e, i)
    ensures Apply(e, m)[i] == m[i]
  {
  }

  /** Undoing a log changes no byte outside its fields. */
  lemma {:induction false} UndoLeavesRest(es: seq<UndoEntry>, m: seq<Byte>, i: nat)
    requires InMemory(es, m) && AllWellFormed(es) && i < |m| && !Touches(es, i)
    ensures Undo(es, m)[i] == m[i]
    decreases |es|
  {
    hide Apply;
    if es != [] {
      var e, front := es[|es| - 1], es[..|es| - 1];
      assert !Covers(e, i);
      ApplyByte(e, m, i);
      assert front == es[0..|es| - 1];
      TouchesSlice(es, 0, |es| - 1, i);
      UndoLeavesRest(front, Apply(e, m), i);
    }
  }

  lemma RollbackLeavesRest(es: seq<UndoEntry>, t: nat, m: seq<Byte>, i: nat)
    requires InMemory(es, m) && AllWellFormed(es) && i < |m| && !Touches(es, i)
    ensures RollbackMemory(es, t, m)[i] == m[i]
  {
    var n := Keep(es, t);
    assert es[n..] == es[n..|es|];
    TouchesSlice(es, n, |es|, i);
    UndoLeavesRest(es[n..], m, i);
  }

  /** The memories agree on every byte the log records. */
  ghost predicate AgreeOn(all: seq<UndoEntry>, m: seq<Byte>, m': seq<Byte>) {
    |m| == |m'| && forall i: nat :: i < |m| && Touches(all, i) ==> m[i] == m'[i]
  }

  lemma ApplyAgrees(all: seq<UndoEntry>, k: nat, m: seq<Byte>, m': seq<Byte>)
    requires k < |all| && WellFormed(all[k]) && all[k].End() <= |m| && AgreeOn(all, m, m')
    ensures AgreeOn(all, Apply(all[k], m), Apply(all[k], m'))
  {
    var e := all[k];
    assert forall i: nat :: e.ptr <= i < e.End() ==> Covers(e, i) && Touches(all, i);
    assert Field(m, e) == Field(m', e);
    hide Touches, Fnv;
    forall i: nat | i < |m| && Touches(all, i)
      ensures Apply(e, m)[i] == Apply(e, m')[i]
    {
    }
  }

  /** What a rollback leaves in a log's fields depends on nothing but those fields. */
  lemma {:induction false} UndoAgrees(all: seq<UndoEntry>, lo: nat, hi: nat, m: seq<Byte>, m': seq<Byte>)
    requires InMemory(all, m) && AllWellFormed(all) && lo <= hi <= |all| && AgreeOn(all, m, m')
    ensures InMemory(all[lo..hi], m) && InMemory(all[lo..hi], m') && AllWellFormed(all[lo..hi])
    ensures AgreeOn(all, Undo(all[lo..hi], m), Undo(all[lo..hi], m'))
    decreases hi
  {
    hide AgreeOn, Apply;
    SliceInMemory(all, lo, hi, m, m');
    if lo < hi {
      var es := all[lo..hi];
      assert es[..|es| - 1] == all[lo..hi - 1] && es[|es| - 1] == all[hi - 1];
      ApplyAgrees(all, hi - 1, m, m');
      UndoAgrees(all, lo, hi - 1, Apply(all[hi - 1], m), Apply(all[hi - 1], m'));
    }
  }

  lemma SliceInMemory(all: seq<UndoEntry>, lo: nat, hi: nat, m: seq<Byte>, m': seq<Byte>)
    requires InMemory(all, m) && AllWellFormed(all) && lo <= hi <= |all| && AgreeOn(all, m, m')
    ensures InMemory(all[lo..hi], m) && InMemory(all[lo..hi], m') && AllWellFormed(all[lo..hi])
  {
  }

  lemma RollbackAgrees(es: seq<UndoEntry>, t: nat, m: seq<Byte>, m': seq<Byte>)
    requires InMemory(es, m) && AllWellFormed(es) && AgreeOn(es, m, m')
    ensures AgreeOn(es, RollbackMemory(es, t, m), RollbackMemory(es, t, m'))
  {
    assert es[Keep(es, t)..] == es[Keep(es, t)..|es|];
    UndoAgrees(es, Keep(es, t), |es|, m, m');
  }

  // ----- the intent: write-back without the guard

  /** What the undo log is for: every popped entry writes its recorded bytes back, newest first. */
  ghost function PlainUndo(es: seq<UndoEntry>, m: seq<Byte>): (m': seq<Byte>)
    requires InMemory(es, m) && AllWellFormed(es)
    ensures |m'| == |m|
    decreases |es|
  {
    if es == [] then m else PlainUndo(es[..|es| - 1], WriteBack(es[|es| - 1], m))
  }

  lemma WriteBackField(a: UndoEntry, e: UndoEntry, m: seq<Byte>)
    requires WellFormed(a) && SameOrApart(a, e) && a.End() <= |m| && e.End() <= |m|
    ensures Field(WriteBack(a, m), e)
      == if a.ptr == e.ptr && a.size == e.size then a.oldValue[..a.size] else Field(m, e)
  {
    if a.ptr == e.ptr && a.size == e.size { WriteBackSame(a, e, m); } else { WriteBackApart(a, e, m); }
  }

  /** Without the guard every recorded field gets its oldest recorded bytes back, whatever memory holds. */
  lemma {:induction false} PlainUndoRestores(es: seq<UndoEntry>, k: nat, m: seq<Byte>)
    requires InMemory(es, m) && AllWellFormed(es) && k < |es| && CleanFields(es, es[k])
    requires forall i :: 0 <= i < k ==> es[i].ptr != es[k].ptr
    ensures Field(PlainUndo(es, m), es[k]) == es[k].oldValue[..es[k].size]
    decreases |es|
  {
    hide WriteBack, Field;
    var a, front := es[|es| - 1], es[..|es| - 1];
    WriteBackField(a, es[k], m);
    if k < |es| - 1 {
      PlainUndoRestores(front, k, WriteBack(a, m));
    } else {
      PlainUndoElsewhere(front, a, WriteBack(a, m));
    }
  }

  lemma {:induction false} PlainUndoElsewhere(es: seq<UndoEntry>, e: UndoEntry, m: seq<Byte>)
    requires InMemory(es, m) && AllWellFormed(es) && e.End() <= |m| && CleanFields(es, e)
    requires forall i :: 0 <= i < |es| ==> es[i].ptr != e.ptr
    ensures Field(PlainUndo(es, m), e) == Field(m, e)
    decreases |es|
  {
    hide WriteBack, Field;
    if es != [] {
      WriteBackField(es[|es| - 1], e, m);
      PlainUndoElsewhere(es[..|es| - 1], e, WriteBack(es[|es| - 1], m));
    }
  }

  /** The code meets the intent on a field exactly when the guard lets the field's oldest value through. */
  lemma GuardMeetsIntentIff(es: seq<UndoEntry>, k: nat, m: seq<Byte>)
    requires InMemory(es, m) && AllWellFormed(es) && k < |es| && CleanFields(es, es[k])
    requires forall i :: 0 <= i < k ==> es[i].ptr != es[k].ptr
    ensures Field(Undo(es, m), es[k]) == Field(PlainUndo(es, m), es[k]) <==> Fnv(Field(m, es[k])) == es[k].checksum
  {
    hide Field, Fnv;
    PlainUndoRestores(es, k, m);
    UndoRestoresIff(es, k, m);
  }

  // ----- recording and undoing

  /** A record of a new field in a log with room keeps the log and adds one entry: the field's first eight bytes. */
  lemma RecordingAppends(es: seq<UndoEntry>, gen: nat, ptr: nat, value: seq<Byte>)
    requires |es| < MAX_UNDO_ENTRIES && forall i :: 0 <= i < |es| ==> es[i].generation != gen || es[i].ptr != ptr
    ensures var es', k := Recording(es, gen, ptr, value), if |value| < 8 then |value| else 8;
      && |es'| == |es| + 1 && es'[..|es|] == es
      && var e := es'[|es|];
      && WellFormed(e) && e.generation == gen && e.ptr == ptr && e.size == k && e.oldValue[..k] == value[..k]
  {
    hide Fnv;
  }

  /**
    The intent of one record: a field of up to eight bytes recorded in memory m and overwritten since comes back
    when it is undone without the guard, and memory is m again.
  */
  lemma RecordThenPlainUndo(gen: nat, ptr: nat, n: nat, m: seq<Byte>, now: seq<Byte>)
    requires n <= 8 && ptr + n <= |m| == |now|
    requires forall i :: 0 <= i < |m| && (i < ptr || ptr + n <= i) ==> now[i] == m[i]
    ensures var es := [NewEntry(gen, ptr, m[ptr..ptr + n])];
      InMemory(es, now) && AllWellFormed(es) && PlainUndo(es, now) == m
  {
    hide Fnv, WriteBack;
    var e := NewEntry(gen, ptr, m[ptr..ptr + n]);
    assert e.size == n && e.ptr == ptr && e.oldValue[..n] == m[ptr..ptr + n];
    WriteBackRestores(e, now, m);
    assert [e][..0] == [];
  }

  lemma WriteBackRestores(e: UndoEntry, now: seq<Byte>, m: seq<Byte>)
    requires e.size <= |e.oldValue| && e.End() <= |m| == |now| && e.oldValue[..e.size] == m[e.ptr..e.End()]
    requires forall i :: 0 <= i < |m| && (i < e.ptr || e.End() <= i) ==> now[i] == m[i]
    ensures WriteBack(e, now) == m
  {
    assert now[..e.ptr] == m[..e.ptr] && now[e.End()..] == m[e.End()..];
    assert m == m[..e.ptr] + m[e.ptr..e.End()] + m[e.End()..];
  }

  /** Published values of the 32-bit FNV-1a hash: of nothing, of "a" and of "foobar". */
  lemma FnvVectors()
    ensures Fnv([]) == 0x811c9dc5 && Fnv([0x61]) == 0xe40c292c
    ensures Fnv([0x66, 0x6f, 0x6f, 0x62, 0x61, 0x72]) == 0xbf9cf968
  {
    assert [0x61 as Byte][..0] == [];
    var s: seq<Byte> := [0x66, 0x6f, 0x6f, 0x62, 0x61, 0x72];
    assert s[..1] == [0x66] && s[..1][..0] == [];
    assert Fnv(s[..1]) == FnvStep(0x811c9dc5, 0x66);
    assert s[..2][..1] == s[..1];
    assert Fnv(s[..2]) == FnvStep(Fnv(s[..1]), 0x6f);
    assert s[..3][..2] == s[..2];
    assert Fnv(s[..3]) == FnvStep(Fnv(s[..2]), 0x6f);
    assert s[..4][..3] == s[..3];
    assert Fnv(s[..4]) == FnvStep(Fnv(s[..3]), 0x62);
    assert s[..5][..4] == s[..4];
    assert Fnv(s[..5]) == FnvStep(Fnv(s[..4]), 0x61);
    assert s[..6] == s && s[..5] == s[..|s| - 1];
  }
}
