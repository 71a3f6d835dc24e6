/**
  The undo log as a value: recording, rolling back with a guarded write-back, and two ways of compacting.
*/
module UndoSpec {
  import opened Bits

  const MAX_UNDO_ENTRIES: nat := 256
  const MAX_SEEN: nat := 64
  const MAX_GEN_STARTS: nat := 16

  type Byte = bv8

  // ----- FNV-1a

  function FnvStep(h: bv32, b: Byte): bv32 {
    (h ^ (b as bv32)) * 16777619
  }

  function Fnv(data: seq<Byte>): bv32 {
    if data == [] then 2166136261 else FnvStep(Fnv(data[..|data| - 1]), data[|data| - 1])
  }

  // ----- entries

  datatype UndoEntry = UndoEntry(generation: nat, ptr: nat, oldValue: seq<Byte>, size: nat, checksum: bv32) {
    function End(): nat {
      ptr + size
    }
  }

  ghost predicate WellFormed(e: UndoEntry) {
    |e.oldValue| == 8 && e.size <= 8 && e.checksum == Fnv(e.oldValue[..e.size])
  }

  ghost predicate Sorted(es: seq<UndoEntry>) {
    forall i, j :: 0 <= i < j < |es| ==> es[i].generation <= es[j].generation
  }

  /** At most one entry per generation and field. */
  ghost predicate UniqueKeys(es: seq<UndoEntry>) {
    forall i, j :: 0 <= i < j < |es| ==> es[i].generation != es[j].generation || es[i].ptr != es[j].ptr
  }

  ghost predicate UpTo(es: seq<UndoEntry>, gen: nat) {
    forall i :: 0 <= i < |es| ==> es[i].generation <= gen
  }

  ghost predicate AllWellFormed(es: seq<UndoEntry>) {
    forall i :: 0 <= i < |es| ==> WellFormed(es[i])
  }

  /** What every operation on the log keeps. */
  ghost predicate Inv(es: seq<UndoEntry>, gen: nat) {
    |es| <= MAX_UNDO_ENTRIES && Sorted(es) && UniqueKeys(es) && UpTo(es, gen) && AllWellFormed(es)
  }

  /** What holds of a log holds of any of its slices. */
  lemma SliceInv(es: seq<UndoEntry>, gen: nat, lo: nat, hi: nat)
    requires Inv(es, gen) && lo <= hi <= |es|
    ensures Inv(es[lo..hi], gen)
  {
  }

  // ----- rolling back

  /** How many entries stay when entries of generation t or later are popped from the end. */
  function Keep(es: seq<UndoEntry>, t: nat): (n: nat)
    ensures n <= |es|
    ensures n > 0 ==> es[n - 1].generation < t
    ensures forall i :: n <= i < |es| ==> es[i].generation >= t
  {
    if es == [] || es[|es| - 1].generation < t then |es| else Keep(es[..|es| - 1], t)
  }

  /** Rolling back pops exactly the entries of generation t or later. */
  lemma KeepIsExact(es: seq<UndoEntry>, t: nat, i: nat)
    requires Sorted(es) && i < |es|
    ensures i < Keep(es, t) <==> es[i].generation < t
  {
    var n := Keep(es, t);
    if i < n {
      assert i < n - 1 ==> es[i].generation <= es[n - 1].generation;
    }
  }

  ghost predicate Fits(es: seq<UndoEntry>, size: nat) {
    forall i :: 0 <= i < |es| ==> es[i].End() <= size
  }

  ghost predicate InMemory(es: seq<UndoEntry>, m: seq<Byte>) {
    Fits(es, |m|)
  }

  function Field(m: seq<Byte>, e: UndoEntry): seq<Byte>
    requires e.End() <= |m|
  {
    m[e.ptr..e.End()]
  }

  /** Memory with the field of e overwritten by its recorded bytes. */
  function WriteBack(e: UndoEntry, m: seq<Byte>): (m': seq<Byte>)
    requires e.End() <= |m| && e.size <= |e.oldValue|
    ensures |m'| == |m|
  {
    m[..e.ptr] + e.oldValue[..e.size] + m[e.End()..]
  }

  /** Write-back as coded: only when the bytes now in the field have the checksum of the recorded ones. */
  function Apply(e: UndoEntry, m: seq<Byte>): (m': seq<Byte>)
    requires e.End() <= |m| && e.size <= |e.oldValue|
    ensures |m'| == |m|
  {
    if Fnv(Field(m, e)) == e.checksum then WriteBack(e, m) else m
  }

  /** The entries' effect on memory, newest first. */
  ghost function Undo(es: seq<UndoEntry>, m: seq<Byte>): (m': seq<Byte>)
    requires InMemory(es, m) && AllWellFormed(es)
    ensures |m'| == |m|
    decreases |es|
  {
    if es == [] then m
    else Undo(es[..|es| - 1], Apply(es[|es| - 1], m))
  }

  ghost function RollbackMemory(es: seq<UndoEntry>, t: nat, m: seq<Byte>): (m': seq<Byte>)
    requires InMemory(es, m) && AllWellFormed(es)
    ensures |m'| == |m|
  {
    Undo(es[Keep(es, t)..], m)
  }

  /** The same effect computed the way the loop does: pop, undo, repeat. */
  ghost function PopMemory(es: seq<UndoEntry>, t: nat, m: seq<Byte>): (m': seq<Byte>)
    requires InMemory(es, m) && AllWellFormed(es)
    ensures |m'| == |m|
    decreases |es|
  {
    if es == [] || es[|es| - 1].generation < t then m
    else PopMemory(es[..|es| - 1], t, Apply(es[|es| - 1], m))
  }

  lemma {:induction false} PopIsRollback(es: seq<UndoEntry>, t: nat, m: seq<Byte>)
    requires InMemory(es, m) && AllWellFormed(es)
    ensures PopMemory(es, t, m) == RollbackMemory(es, t, m)
    decreases |es|
  {
    hide Fnv;
    if es != [] && es[|es| - 1].generation >= t {
      var front, n := es[..|es| - 1], Keep(es, t);
      PopIsRollback(front, t, Apply(es[|es| - 1], m));
      assert es[n..][..|es| - 1 - n] == front[n..];
    }
  }

  /** One turn of the popping loop. */
  lemma PopStep(es: seq<UndoEntry>, t: nat, m: seq<Byte>)
    requires es != [] && InMemory(es, m) && AllWellFormed(es)
    ensures WellFormed(es[|es| - 1]) && es[|es| - 1].End() <= |m|
    ensures es[|es| - 1].generation < t ==> Keep(es, t) == |es| && PopMemory(es, t, m) == m
    ensures es[|es| - 1].generation >= t ==>
      var front, m' := es[..|es| - 1], Apply(es[|es| - 1], m);
      && InMemory(front, m') && AllWellFormed(front)
      && Keep(es, t) == Keep(front, t) && PopMemory(es, t, m) == PopMemory(front, t, m')
  {
    hide Fnv, WriteBack;
  }

  // ----- what rolling back does to a field

  /** Two entries name the same field or fields that do not touch. */
  ghost predicate SameOrApart(a: UndoEntry, b: UndoEntry) {
    (a.ptr == b.ptr && a.size == b.size) || a.End() <= b.ptr || b.End() <= a.ptr
  }

  ghost predicate CleanFields(es: seq<UndoEntry>, e: UndoEntry) {
    forall i :: 0 <= i < |es| ==> SameOrApart(es[i], e)
  }

  lemma WriteBackSame(a: UndoEntry, e: UndoEntry, m: seq<Byte>)
    requires a.size <= |a.oldValue| && a.End() <= |m| && a.ptr == e.ptr && a.size == e.size
    ensures Field(WriteBack(a, m), e) == a.oldValue[..a.size]
  {
  }

  lemma WriteBackApart(a: UndoEntry, e: UndoEntry, m: seq<Byte>)
    requires a.size <= |a.oldValue| && a.End() <= |m| && e.End() <= |m|
    requires a.End() <= e.ptr || e.End() <= a.ptr
    ensures Field(WriteBack(a, m), e) == Field(m, e)
  {
    var w := WriteBack(a, m);
    assert forall i :: 0 <= i < a.ptr ==> w[i] == m[i];
    assert forall i :: a.End() <= i < |m| ==> w[i] == m[i];
  }

  lemma ApplyField(a: UndoEntry, e: UndoEntry, m: seq<Byte>)
    requires WellFormed(a) && WellFormed(e) && SameOrApart(a, e)
    requires a.End() <= |m| && e.End() <= |m|
    ensures a.ptr == e.ptr && a.size == e.size ==>
      Field(Apply(a, m), e) == if Fnv(Field(m, e)) == a.checksum then a.oldValue[..a.size] else Field(m, e)
    ensures !(a.ptr == e.ptr && a.size == e.size) ==> Field(Apply(a, m), e) == Field(m, e)
    ensures Fnv(Field(Apply(a, m), e)) == Fnv(Field(m, e))
  {
    if a.ptr == e.ptr && a.size == e.size {
      WriteBackSame(a, e, m);
    } else {
      WriteBackApart(a, e, m);
    }
    hide WriteBack, Fnv;
  }

  /** No rollback ever changes the checksum of a field: the guard only lets equal checksums through. */
  lemma {:induction false} UndoKeepsChecksum(es: seq<UndoEntry>, e: UndoEntry, m: seq<Byte>)
    requires InMemory(es, m) && AllWellFormed(es)
    requires WellFormed(e) && e.End() <= |m| && CleanFields(es, e)
    ensures Fnv(Field(Undo(es, m), e)) == Fnv(Field(m, e))
    decreases |es|
  {
    if es != [] {
      var a := es[|es| - 1];
      ApplyField(a, e, m);
      UndoKeepsChecksum(es[..|es| - 1], e, Apply(a, m));
    }
  }

  /** The field of the oldest entry gets its recorded bytes back exactly when its checksum already matched. */
  lemma UndoRestoresIff(es: seq<UndoEntry>, k: nat, m: seq<Byte>)
    requires InMemory(es, m) && AllWellFormed(es) && k < |es|
    requires CleanFields(es, es[k])
    requires forall i :: 0 <= i < k ==> es[i].ptr != es[k].ptr
    ensures Field(Undo(es, m), es[k]) == es[k].oldValue[..es[k].size] <==> Fnv(Field(m, es[k])) == es[k].checksum
  {
    UndoKeepsChecksum(es, es[k], m);
    if Fnv(Field(m, es[k])) == es[k].checksum {
      UndoReaches(es, es[k], k, m);
    }
  }

  lemma {:induction false} UndoReaches(es: seq<UndoEntry>, e: UndoEntry, k: nat, m: seq<Byte>)
    requires InMemory(es, m) && AllWellFormed(es) && k < |es| && e == es[k]
    requires WellFormed(e) && e.End() <= |m| && CleanFields(es, e)
    requires forall i :: 0 <= i < k ==> es[i].ptr != e.ptr
    requires Fnv(Field(m, e)) == e.checksum
    ensures Field(Undo(es, m), e) == e.oldValue[..e.size]
    decreases |es|
  {
    hide Apply, Fnv, Field, InMemory, AllWellFormed, CleanFields;
    FrontFacts(es, e, m);
    ApplyField(es[|es| - 1], e, m);
    if k < |es| - 1 {
      UndoReaches(es[..|es| - 1], e, k, Apply(es[|es| - 1], m));
    } else {
      UndoElsewhere(es[..|es| - 1], e, Apply(es[|es| - 1], m));
    }
  }

  lemma FrontFacts(es: seq<UndoEntry>, e: UndoEntry, m: seq<Byte>)
    requires es != [] && InMemory(es, m) && AllWellFormed(es) && CleanFields(es, e)
    ensures es[|es| - 1].End() <= |m| && WellFormed(es[|es| - 1]) && SameOrApart(es[|es| - 1], e)
    ensures InMemory(es[..|es| - 1], Apply(es[|es| - 1], m))
    ensures AllWellFormed(es[..|es| - 1]) && CleanFields(es[..|es| - 1], e)
  {
  }

  /** Entries of other fields leave a field alone. */
  lemma {:induction false} UndoElsewhere(es: seq<UndoEntry>, e: UndoEntry, m: seq<Byte>)
    requires InMemory(es, m) && AllWellFormed(es)
    requires WellFormed(e) && e.End() <= |m| && CleanFields(es, e)
    requires forall i :: 0 <= i < |es| ==> es[i].ptr != e.ptr
    ensures Field(Undo(es, m), e) == Field(m, e)
    decreases |es|
  {
    if es != [] {
      ApplyField(es[|es| - 1], e, m);
      UndoElsewhere(es[..|es| - 1], e, Apply(es[|es| - 1], m));
    }
  }

  lemma ApplyCollides(e: UndoEntry, m: seq<Byte>)
    requires WellFormed(e) && e.End() <= |m| && Apply(e, m) != m
    ensures Field(m, e) != e.oldValue[..e.size] && Fnv(Field(m, e)) == Fnv(e.oldValue[..e.size])
  {
    assert m == m[..e.ptr] + Field(m, e) + m[e.End()..];
  }

  /** The field now holds other bytes than the recorded ones, with the recorded checksum. */
  ghost predicate Collides(e: UndoEntry, m: seq<Byte>) {
    && e.End() <= |m| && e.size <= |e.oldValue|
    && Field(m, e) != e.oldValue[..e.size] && Fnv(Field(m, e)) == e.checksum
  }

  /** A rollback that changes memory meets an entry whose field collides with its recorded bytes. */
  lemma {:induction false} ChangeNeedsCollision(es: seq<UndoEntry>, m: seq<Byte>)
    requires InMemory(es, m) && AllWellFormed(es) && Undo(es, m) != m
    ensures exists k :: 0 <= k < |es| && Collides(es[k], m)
    decreases |es|
  {
    hide Fnv;
    var e, front := es[|es| - 1], es[..|es| - 1];
    if Apply(e, m) == m {
      ChangeNeedsCollision(front, m);
      var k :| 0 <= k < |front| && Collides(front[k], m);
      assert Collides(es[k], m);
    } else {
      ApplyCollides(e, m);
      assert Collides(es[|es| - 1], m);
    }
  }

  // ----- compacting to the newest generations

  /** Indices where a new generation starts; the scan begins with `prev` as the generation before. */
  function RunStarts(es: seq<UndoEntry>, from: nat, prev: nat): (r: seq<nat>)
    requires from <= |es|
    ensures forall i :: 0 <= i < |r| ==> from <= r[i] < |es|
    decreases |es| - from
  {
    if from == |es| then []
    else if es[from].generation != prev then [from] + RunStarts(es, from + 1, es[from].generation)
    else RunStarts(es, from + 1, prev)
  }

  function GenStarts(es: seq<UndoEntry>): (r: seq<nat>)
    ensures forall i :: 0 <= i < |r| ==> r[i] < |es|
  {
    var r := RunStarts(es, 0, U64_LIMIT - 1);
    if |r| <= MAX_GEN_STARTS then r else r[..MAX_GEN_STARTS]
  }

  /** Where compact_keeping cuts. */
  function CutAt(es: seq<UndoEntry>, generations: nat): (f: nat)
    ensures f <= |es|
  {
    var g := GenStarts(es);
    if 0 < generations < |g| then g[|g| - generations] else 0
  }

  function Compacted(es: seq<UndoEntry>, generations: nat): seq<UndoEntry> {
    es[CutAt(es, generations)..]
  }

  function Gens(es: seq<UndoEntry>): set<nat> {
    set e | e in es :: e.generation
  }

  ghost predicate Increasing(r: seq<nat>) {
    forall i, j :: 0 <= i < j < |r| ==> r[i] < r[j]
  }

  /** Every index is the first of the log or follows an entry of an older generation. */
  ghost predicate StartRuns(es: seq<UndoEntry>, r: seq<nat>) {
    forall i :: 0 <= i < |r| ==> r[i] < |es| && (r[i] == 0 || es[r[i] - 1].generation < es[r[i]].generation)
  }

  lemma {:induction false} RunStartsOrdered(es: seq<UndoEntry>, from: nat, prev: nat)
    requires Sorted(es) && UpTo(es, U64_LIMIT - 1) && from <= |es|
    requires if from == 0 then prev == U64_LIMIT - 1 else prev == es[from - 1].generation
    ensures Increasing(RunStarts(es, from, prev)) && StartRuns(es, RunStarts(es, from, prev))
    decreases |es| - from
  {
    if from < |es| {
      var rest := RunStarts(es, from + 1, es[from].generation);
      RunStartsOrdered(es, from + 1, es[from].generation);
      if es[from].generation != prev {
        ConsStart(es, from, rest);
      }
    }
  }

  lemma ConsStart(es: seq<UndoEntry>, from: nat, rest: seq<nat>)
    requires Increasing(rest) && StartRuns(es, rest) && forall i :: 0 <= i < |rest| ==> from < rest[i]
    requires from < |es| && (from == 0 || es[from - 1].generation < es[from].generation)
    ensures Increasing([from] + rest) && StartRuns(es, [from] + rest)
  {
  }

  ghost function StartGens(es: seq<UndoEntry>, g: seq<nat>, lo: nat): (s: set<nat>)
    requires lo <= |g| && forall i :: 0 <= i < |g| ==> g[i] < |es|
    decreases |g| - lo
  {
    if lo == |g| then {} else {es[g[lo]].generation} + StartGens(es, g, lo + 1)
  }

  lemma {:induction false} StartGensDistinct(es: seq<UndoEntry>, g: seq<nat>, lo: nat)
    requires Sorted(es) && lo <= |g| && Increasing(g) && StartRuns(es, g)
    ensures |StartGens(es, g, lo)| == |g| - lo
    ensures lo < |g| ==> forall x :: x in StartGens(es, g, lo) ==> es[g[lo]].generation <= x
    decreases |g| - lo
  {
    if lo < |g| {
      StartGensDistinct(es, g, lo + 1);
      if lo + 1 < |g| {
        OlderBeforeRun(es, g[lo], g[lo + 1]);
      }
    }
  }

  lemma OlderBeforeRun(es: seq<UndoEntry>, i: nat, j: nat)
    requires Sorted(es) && i < j < |es| && es[j - 1].generation < es[j].generation
    ensures es[i].generation < es[j].generation
  {
    assert i < j - 1 ==> es[i].generation <= es[j - 1].generation;
  }

  lemma {:induction false} StartGensKept(es: seq<UndoEntry>, g: seq<nat>, lo: nat, f: nat)
    requires lo <= |g| && StartRuns(es, g) && forall i :: lo <= i < |g| ==> f <= g[i]
    requires f <= |es|
    ensures StartGens(es, g, lo) <= Gens(es[f..])
    decreases |g| - lo
  {
    if lo < |g| {
      assert es[f..][g[lo] - f] in es[f..];
      StartGensKept(es, g, lo + 1, f);
    }
  }

  lemma SubsetCard(a: set<nat>, b: set<nat>)
    requires a <= b
    ensures |a| <= |b|
  {
    assert b == a + (b - a);
  }

  lemma GenStartsOrdered(es: seq<UndoEntry>)
    requires Sorted(es) && UpTo(es, U64_LIMIT - 1)
    ensures Increasing(GenStarts(es)) && StartRuns(es, GenStarts(es))
  {
    RunStartsOrdered(es, 0, U64_LIMIT - 1);
    hide RunStarts;
  }

  /** compact_keeping drops entries only when at least the asked number of newer generations stays, whole. */
  lemma CompactedKeepsNewest(es: seq<UndoEntry>, generations: nat)
    requires Sorted(es) && UpTo(es, U64_LIMIT - 1)
    ensures var f := CutAt(es, generations);
      f > 0 ==> f < |es| && es[f - 1].generation < es[f].generation && |Gens(Compacted(es, generations))| >= generations
  {
    var g, f := GenStarts(es), CutAt(es, generations);
    GenStartsOrdered(es);
    hide GenStarts, Gens;
    if f > 0 {
      var lo := |g| - generations;
      assert g[lo] == f;
      StartGensDistinct(es, g, lo);
      StartGensKept(es, g, lo, f);
      SubsetCard(StartGens(es, g, lo), Gens(es[f..]));
    }
  }

  lemma KeepUnique(es: seq<UndoEntry>, t: nat, n: nat)
    requires Sorted(es) && n <= |es|
    requires n > 0 ==> es[n - 1].generation < t
    requires n < |es| ==> es[n].generation >= t
    ensures Keep(es, t) == n
  {
  }

  lemma SuffixKeep(es: seq<UndoEntry>, f: nat, t: nat)
    requires Sorted(es) && f <= |es| && (f > 0 ==> es[f - 1].generation < t)
    ensures f <= Keep(es, t) && Keep(es[f..], t) == Keep(es, t) - f
    ensures es[f..][..Keep(es[f..], t)] == es[f..Keep(es, t)]
  {
    var n := Keep(es, t);
    KeepUnique(es[f..], t, n - f);
    hide Keep;
  }

  /** Dropping a prefix older than t does not affect rolling back to t. */
  lemma SuffixCommutes(es: seq<UndoEntry>, f: nat, t: nat, m: seq<Byte>)
    requires Sorted(es) && InMemory(es, m) && AllWellFormed(es)
    requires f <= |es| && (f > 0 ==> es[f - 1].generation < t)
    ensures InMemory(es[f..], m) && AllWellFormed(es[f..])
    ensures RollbackMemory(es[f..], t, m) == RollbackMemory(es, t, m)
  {
    hide Undo, Keep, WellFormed, Sorted;
    SuffixKeep(es, f, t);
    DropDrop(es, f, Keep(es, t));
    SuffixInMemory(es, f, m);
  }

  lemma DropDrop(es: seq<UndoEntry>, f: nat, n: nat)
    requires f <= n <= |es|
    ensures es[f..][n - f..] == es[n..]
  {
  }

  lemma SuffixInMemory(es: seq<UndoEntry>, f: nat, m: seq<Byte>)
    requires InMemory(es, m) && AllWellFormed(es) && f <= |es|
    ensures InMemory(es[f..], m) && AllWellFormed(es[f..])
  {
  }

  /** Rolling back to a generation that was kept is not affected by compacting first. */
  lemma CompactedCommutes(es: seq<UndoEntry>, generations: nat, t: nat, m: seq<Byte>)
    requires Sorted(es) && UpTo(es, U64_LIMIT - 1) && InMemory(es, m) && AllWellFormed(es)
    requires Compacted(es, generations) != [] ==> Compacted(es, generations)[0].generation <= t
    ensures var es' := Compacted(es, generations);
      && InMemory(es', m) && AllWellFormed(es')
      && RollbackMemory(es', t, m) == RollbackMemory(es, t, m)
      && |es'| - Keep(es', t) == |es| - Keep(es, t)
      && CutAt(es, generations) <= Keep(es, t)
      && es'[..Keep(es', t)] == es[CutAt(es, generations)..Keep(es, t)]
  {
    hide CutAt, Keep, RollbackMemory, WellFormed, Sorted;
    CompactedKeepsNewest(es, generations);
    var f := CutAt(es, generations);
    assert f > 0 ==> Compacted(es, generations)[0] == es[f];
    SuffixKeep(es, f, t);
    SuffixCommutes(es, f, t, m);
  }

  // ----- emergency compaction

  function Min(a: nat, b: nat): nat {
    if a < b then a else b
  }

  /** The scan from the newest entry down to index i: the indices kept, and the field pointers noted so far. */
  datatype Scan = Scan(idx: seq<nat>, seen: seq<nat>)

  function ScanFrom(es: seq<UndoEntry>, i: nat, keepGen: nat): (s: Scan)
    requires i <= |es|
    ensures forall j :: 0 <= j < |s.idx| ==> i <= s.idx[j] < |es|
    ensures Increasing(s.idx) && |s.idx| <= |es| - i && |s.seen| <= MAX_SEEN
    decreases |es| - i
  {
    if i == |es| then Scan([], [])
    else
      var s, e := ScanFrom(es, i + 1, keepGen), es[i];
      if e.generation >= keepGen && e.ptr in s.seen then s
      else Scan([i] + s.idx,
                if e.generation >= keepGen && |s.seen| < MAX_SEEN then s.seen + [e.ptr] else s.seen)
  }

  function Pick(es: seq<UndoEntry>, idx: seq<nat>): (r: seq<UndoEntry>)
    requires forall j :: 0 <= j < |idx| ==> idx[j] < |es|
    ensures |r| == |idx| && forall j :: 0 <= j < |idx| ==> r[j] == es[idx[j]]
  {
    seq(|idx|, (j: int) requires 0 <= j < |idx| => es[idx[j]])
  }

  function Emergency(es: seq<UndoEntry>, keepGen: nat): seq<UndoEntry> {
    Pick(es, ScanFrom(es, 0, keepGen).idx)
  }

  /** An order-preserving subsequence inherits the log's invariant. */
  lemma PickInv(es: seq<UndoEntry>, idx: seq<nat>, gen: nat)
    requires Inv(es, gen) && Increasing(idx) && |idx| <= |es|
    requires forall j :: 0 <= j < |idx| ==> idx[j] < |es|
    ensures Inv(Pick(es, idx), gen)
  {
  }

  /** The fields recorded in generation keepGen or later from index i on. */
  function RecentPtrs(es: seq<UndoEntry>, i: nat, keepGen: nat): set<nat> {
    set k | i <= k < |es| && es[k].generation >= keepGen :: es[k].ptr
  }

  lemma RecentPtrsStep(es: seq<UndoEntry>, i: nat, keepGen: nat)
    requires i < |es|
    ensures RecentPtrs(es, i, keepGen)
      == RecentPtrs(es, i + 1, keepGen) + if es[i].generation >= keepGen then {es[i].ptr} else {}
  {
  }

  function Members(s: seq<nat>): set<nat> {
    set x | x in s
  }

  lemma MembersSnoc(s: seq<nat>, x: nat)
    ensures Members(s + [x]) == Members(s) + {x}
  {
  }

  /** The scan notes recent fields without repeats: all of them while there are at most 64, and exactly 64 otherwise. */
  lemma {:induction false} SeenIsRecent(es: seq<UndoEntry>, i: nat, keepGen: nat)
    requires i <= |es|
    ensures var seen, recent := ScanFrom(es, i, keepGen).seen, RecentPtrs(es, i, keepGen);
      && Members(seen) <= recent && |seen| == |Members(seen)| == Min(|recent|, MAX_SEEN)
      && (|recent| <= MAX_SEEN ==> Members(seen) == recent)
    decreases |es| - i
  {
    if i < |es| {
      hide RecentPtrs;
      SeenIsRecent(es, i + 1, keepGen);
      RecentPtrsStep(es, i, keepGen);
      MembersSnoc(ScanFrom(es, i + 1, keepGen).seen, es[i].ptr);
      SameCardSame(Members(ScanFrom(es, i, keepGen).seen), RecentPtrs(es, i, keepGen));
    }
  }

  lemma SameCardSame(a: set<nat>, b: set<nat>)
    requires a <= b
    ensures |a| <= |b| && (|a| == |b| ==> a == b)
  {
    assert b == a + (b - a);
  }

  /** Entry j records `ptr` and fewer than 64 recent fields come after it, so the scan notes the field. */
  ghost predicate NotedAt(es: seq<UndoEntry>, keepGen: nat, ptr: nat, j: nat) {
    && j < |es| && es[j].ptr == ptr && es[j].generation >= keepGen
    && |RecentPtrs(es, j + 1, keepGen)| < MAX_SEEN
  }

  lemma {:induction false} SeenIff(es: seq<UndoEntry>, i: nat, keepGen: nat, ptr: nat)
    requires i <= |es|
    ensures ptr in ScanFrom(es, i, keepGen).seen <==> exists j: nat :: i <= j && NotedAt(es, keepGen, ptr, j)
    decreases |es| - i
  {
    if i < |es| {
      hide RecentPtrs;
      SeenIff(es, i + 1, keepGen, ptr);
      SeenIsRecent(es, i + 1, keepGen);
      if es[i].ptr == ptr && es[i].generation >= keepGen && |RecentPtrs(es, i + 1, keepGen)| < MAX_SEEN {
        assert NotedAt(es, keepGen, ptr, i);
      }
    }
  }

  /** Entry k is recent, and its field is recorded again later, with fewer than 64 recent fields after that. */
  ghost predicate Renoted(es: seq<UndoEntry>, keepGen: nat, k: nat) {
    k < |es| && es[k].generation >= keepGen && exists j: nat :: k < j && NotedAt(es, keepGen, es[k].ptr, j)
  }

  /** Exactly these entries are dropped. */
  lemma {:induction false} DroppedIff(es: seq<UndoEntry>, i: nat, keepGen: nat, k: nat)
    requires i <= k < |es|
    ensures k !in ScanFrom(es, i, keepGen).idx <==> Renoted(es, keepGen, k)
    decreases |es| - i
  {
    hide NotedAt;
    if i < k {
      DroppedIff(es, i + 1, keepGen, k);
    } else {
      SeenIff(es, k + 1, keepGen, es[k].ptr);
    }
  }

  /** Every current-generation entry and every entry older than keepGen survives. */
  lemma EmergencyKeeps(es: seq<UndoEntry>, gen: nat, keepGen: nat, k: nat)
    requires Sorted(es) && UniqueKeys(es) && UpTo(es, gen) && k < |es|
    requires es[k].generation < keepGen || es[k].generation == gen
    ensures k in ScanFrom(es, 0, keepGen).idx && !Renoted(es, keepGen, k)
  {
    DroppedIff(es, 0, keepGen, k);
  }

  /** Compaction makes room exactly when some recent entry's field is recorded again later, near enough to the end. */
  lemma {:induction false} EmergencyRoomIff(es: seq<UndoEntry>, i: nat, keepGen: nat)
    requires i <= |es|
    ensures |ScanFrom(es, i, keepGen).idx| < |es| - i <==> exists k: nat :: i <= k && Renoted(es, keepGen, k)
    decreases |es| - i
  {
    hide Renoted;
    if i < |es| {
      EmergencyRoomIff(es, i + 1, keepGen);
      DroppedIff(es, i, keepGen, i);
      assert Renoted(es, keepGen, i) <==> ScanFrom(es, i, keepGen) == ScanFrom(es, i + 1, keepGen);
    } else {
      assert forall k: nat :: i <= k ==> !Renoted(es, keepGen, k) by { RenotedInside(es, keepGen); }
    }
  }

  lemma RenotedInside(es: seq<UndoEntry>, keepGen: nat)
    ensures forall k: nat :: Renoted(es, keepGen, k) ==> k < |es|
  {
  }

  /** From an index on where nothing is dropped the scan keeps every index. */
  lemma {:induction false} AllKept(es: seq<UndoEntry>, i: nat, keepGen: nat)
    requires i <= |es|
    requires forall k :: i <= k < |es| ==> k in ScanFrom(es, k, keepGen).idx
    ensures |ScanFrom(es, i, keepGen).idx| == |es| - i
    ensures forall j :: 0 <= j < |es| - i ==> ScanFrom(es, i, keepGen).idx[j] == i + j
    decreases |es| - i
  {
    if i < |es| {
      AllKept(es, i + 1, keepGen);
    }
  }

  /** One step of the scan keeps its index in front or nothing. */
  lemma ScanStep(es: seq<UndoEntry>, i: nat, keepGen: nat)
    requires i < |es|
    ensures var next := ScanFrom(es, i + 1, keepGen).idx;
      ScanFrom(es, i, keepGen).idx == next || ScanFrom(es, i, keepGen).idx == [i] + next
  {
  }

  /** Scanning further down only adds smaller indices in front. */
  lemma {:induction false} ScanExtends(es: seq<UndoEntry>, i: nat, n: nat, keepGen: nat) returns (front: seq<nat>)
    requires i <= n <= |es|
    ensures ScanFrom(es, i, keepGen).idx == front + ScanFrom(es, n, keepGen).idx
    ensures forall j :: 0 <= j < |front| ==> front[j] < n
    decreases n - i
  {
    hide ScanFrom;
    if i == n {
      front := [];
    } else {
      front := ScanExtends(es, i + 1, n, keepGen);
      ScanStep(es, i, keepGen);
      if ScanFrom(es, i, keepGen).idx != ScanFrom(es, i + 1, keepGen).idx {
        assert [i] + (front + ScanFrom(es, n, keepGen).idx) == [i] + front + ScanFrom(es, n, keepGen).idx;
        front := [i] + front;
      }
    }
  }

  /** The kept indices split at n into earlier ones and what the scan of the tail keeps. */
  lemma TailKept(es: seq<UndoEntry>, keepGen: nat, n: nat)
    requires n <= |es|
    ensures var s, tail := ScanFrom(es, 0, keepGen).idx, ScanFrom(es, n, keepGen).idx;
      var n' := |s| - |tail|;
      && 0 <= n' && s[n'..] == tail
      && (forall j :: 0 <= j < n' ==> s[j] < n)
      && ((forall k: nat :: n <= k ==> !Renoted(es, keepGen, k)) ==>
            |tail| == |es| - n && forall j :: 0 <= j < |tail| ==> tail[j] == n + j)
  {
    hide ScanFrom, Renoted;
    var front := ScanExtends(es, 0, n, keepGen);
    if forall k: nat :: n <= k ==> !Renoted(es, keepGen, k) {
      forall k | n <= k < |es|
        ensures k in ScanFrom(es, k, keepGen).idx
      {
        DroppedIff(es, k, keepGen, k);
      }
      AllKept(es, n, keepGen);
    }
  }

  /** Picking every index from n on last picks all of es[n..] last. */
  lemma PickTail(es: seq<UndoEntry>, s: seq<nat>, tail: seq<nat>, n: nat)
    requires n <= |es| && |tail| == |es| - n <= |s| && s[|s| - |tail|..] == tail
    requires (forall j :: 0 <= j < |s| ==> s[j] < |es|) && forall j :: 0 <= j < |tail| ==> tail[j] == n + j
    ensures Pick(es, s)[|s| - |tail|..] == es[n..]
  {
    var n' := |s| - |tail|;
    forall j | 0 <= j < |tail|
      ensures Pick(es, s)[n'..][j] == es[n..][j]
    {
      assert s[n'..][j] == tail[j];
    }
  }

  /** Picking entries before the boundary of generation t first and later ones after keeps that boundary. */
  lemma PickKeep(es: seq<UndoEntry>, s: seq<nat>, t: nat, n': nat)
    requires Sorted(es) && n' <= |s| && forall j :: 0 <= j < |s| ==> s[j] < |es|
    requires Sorted(Pick(es, s))
    requires n' > 0 ==> s[n' - 1] < Keep(es, t)
    requires n' < |s| ==> s[n'] >= Keep(es, t)
    ensures Keep(Pick(es, s), t) == n'
  {
    if n' > 0 { KeepIsExact(es, t, s[n' - 1]); }
    if n' < |s| { KeepIsExact(es, t, s[n']); }
    hide Keep;
    KeepUnique(Pick(es, s), t, n');
  }

  /**
    Rolling back to generation t after emergency compaction pops as many entries as before exactly when no entry of
    generation t or later was dropped, and then it has the same effect on memory.
  */
  lemma EmergencyPopsIff(es: seq<UndoEntry>, gen: nat, keepGen: nat, t: nat, m: seq<Byte>)
    requires Inv(es, gen) && InMemory(es, m)
    ensures var es' := Emergency(es, keepGen);
      && Inv(es', gen) && InMemory(es', m)
      && (|es'| - Keep(es', t) == |es| - Keep(es, t) <==> NoneDropped(es, keepGen, t))
      && (NoneDropped(es, keepGen, t) ==> RollbackMemory(es', t, m) == RollbackMemory(es, t, m))
  {
    hide ScanFrom, Keep, RollbackMemory, WellFormed, Sorted, UniqueKeys, Renoted, Emergency, NoneDropped;
    EmergencyBoundary(es, gen, keepGen, t);
    EmergencyRoomIff(es, Keep(es, t), keepGen);
    DroppedPastBoundary(es, keepGen, t);
    EmergencyInMemory(es, keepGen, m);
    if NoneDropped(es, keepGen, t) {
      EmergencyTail(es, gen, keepGen, t);
      SameTailSameRollback(es, Emergency(es, keepGen), t, m);
    }
  }

  lemma EmergencyInMemory(es: seq<UndoEntry>, keepGen: nat, m: seq<Byte>)
    requires InMemory(es, m)
    ensures InMemory(Emergency(es, keepGen), m)
  {
  }

  lemma SameTailSameRollback(es: seq<UndoEntry>, es': seq<UndoEntry>, t: nat, m: seq<Byte>)
    requires InMemory(es, m) && InMemory(es', m) && AllWellFormed(es) && AllWellFormed(es')
    requires es'[Keep(es', t)..] == es[Keep(es, t)..]
    ensures RollbackMemory(es', t, m) == RollbackMemory(es, t, m)
  {
  }

  /** What compaction pops at t is what the scan of the entries of generation t or later keeps. */
  lemma EmergencyBoundary(es: seq<UndoEntry>, gen: nat, keepGen: nat, t: nat)
    requires Inv(es, gen)
    ensures var es' := Emergency(es, keepGen);
      Inv(es', gen) && |es'| - Keep(es', t) == |ScanFrom(es, Keep(es, t), keepGen).idx|
  {
    hide ScanFrom, Keep, WellFormed, Sorted, UniqueKeys, Renoted;
    var s, n := ScanFrom(es, 0, keepGen).idx, Keep(es, t);
    var tail := ScanFrom(es, n, keepGen).idx;
    var n' := |s| - |tail|;
    PickInv(es, s, gen);
    TailKept(es, keepGen, n);
    assert n' < |s| ==> s[n'] == tail[0];
    PickKeep(es, s, t, n');
  }

  lemma EmergencyTail(es: seq<UndoEntry>, gen: nat, keepGen: nat, t: nat)
    requires Inv(es, gen) && forall k: nat :: Keep(es, t) <= k ==> !Renoted(es, keepGen, k)
    ensures var es' := Emergency(es, keepGen);
      es'[Keep(es', t)..] == es[Keep(es, t)..]
  {
    hide ScanFrom, Keep, Inv, Renoted, Pick;
    var s, n := ScanFrom(es, 0, keepGen).idx, Keep(es, t);
    var tail := ScanFrom(es, n, keepGen).idx;
    EmergencyBoundary(es, gen, keepGen, t);
    TailKept(es, keepGen, n);
    PickTail(es, s, tail, n);
  }

  /** A compaction that makes no room changes nothing. */
  lemma EmergencyIdle(es: seq<UndoEntry>, keepGen: nat)
    requires |Emergency(es, keepGen)| == |es|
    ensures Emergency(es, keepGen) == es
  {
    hide ScanFrom, Renoted;
    EmergencyRoomIff(es, 0, keepGen);
    TailKept(es, keepGen, 0);
    var s := ScanFrom(es, 0, keepGen).idx;
    assert s[0..] == s;
  }

  /** No dropped entry is of generation t or later. */
  ghost predicate NoneDropped(es: seq<UndoEntry>, keepGen: nat, t: nat) {
    forall k: nat :: Renoted(es, keepGen, k) ==> es[k].generation < t
  }

  lemma DroppedPastBoundary(es: seq<UndoEntry>, keepGen: nat, t: nat)
    requires Sorted(es)
    ensures NoneDropped(es, keepGen, t) <==> forall k: nat :: Keep(es, t) <= k ==> !Renoted(es, keepGen, k)
  {
    hide Keep, Sorted, NotedAt;
    forall k: nat | Renoted(es, keepGen, k)
      ensures Keep(es, t) <= k <==> es[k].generation >= t
    {
      KeepIsExact(es, t, k);
    }
  }

  /** In particular emergency compaction does not change what rolling back the current generation does. */
  lemma EmergencySameRollback(es: seq<UndoEntry>, gen: nat, keepGen: nat, m: seq<Byte>)
    requires Inv(es, gen) && InMemory(es, m)
    ensures var es' := Emergency(es, keepGen);
      && Inv(es', gen) && InMemory(es', m)
      && RollbackMemory(es', gen, m) == RollbackMemory(es, gen, m)
      && |es'| - Keep(es', gen) == |es| - Keep(es, gen)
  {
    hide Emergency, Keep, RollbackMemory, WellFormed, NotedAt;
    EmergencyPopsIff(es, gen, keepGen, gen, m);
    forall k: nat | Renoted(es, keepGen, k)
      ensures es[k].generation < gen
    {
      if es[k].generation >= gen { EmergencyKeeps(es, gen, keepGen, k); }
    }
  }

  // ----- operations and runs

  function Zeros(n: nat): (z: seq<Byte>)
    ensures |z| == n
  {
    seq(n, _ => 0)
  }

  /** The entry `record` appends: at most eight bytes of the old value, padded, with their checksum. */
  function NewEntry(gen: nat, ptr: nat, value: seq<Byte>): (e: UndoEntry)
    ensures WellFormed(e)
  {
    var size := Min(|value|, 8);
    var oldValue := value[..size] + Zeros(8 - size);
    assert oldValue[..size] == value[..size];
    UndoEntry(gen, ptr, oldValue, size, Fnv(value[..size]))
  }

  ghost predicate Recorded(es: seq<UndoEntry>, gen: nat, ptr: nat) {
    exists i :: 0 <= i < |es| && es[i].generation == gen && es[i].ptr == ptr
  }

  function PreviousGeneration(gen: nat): nat {
    if gen > 0 then gen - 1 else 0
  }

  function MakeRoom(es: seq<UndoEntry>, gen: nat): seq<UndoEntry> {
    if |es| >= MAX_UNDO_ENTRIES then Emergency(es, PreviousGeneration(gen)) else es
  }

  /** `record` panics on a full log that emergency compaction cannot shrink. */
  ghost predicate HasRoom(es: seq<UndoEntry>, gen: nat, ptr: nat) {
    Recorded(es, gen, ptr) || |MakeRoom(es, gen)| < MAX_UNDO_ENTRIES
  }

  ghost function Recording(es: seq<UndoEntry>, gen: nat, ptr: nat, value: seq<Byte>): seq<UndoEntry> {
    if Recorded(es, gen, ptr) then es else MakeRoom(es, gen) + [NewEntry(gen, ptr, value)]
  }

  function RolledBack(es: seq<UndoEntry>, t: nat): seq<UndoEntry> {
    var rest := es[..Keep(es, t)];
    if |rest| > MAX_UNDO_ENTRIES / 2 then Compacted(rest, 4) else rest
  }

  /** The checksum tells single bytes apart. */
  lemma OneByteDiffers(a: Byte, b: Byte)
    requires a != b
    ensures Fnv([a]) != Fnv([b])
  {
    assert [a][..0] == [] && [b][..0] == [];
    FnvStepDiffers(2166136261, a, b);
  }

  lemma FnvStepDiffers(h: bv32, a: Byte, b: Byte)
    requires a != b
    ensures FnvStep(h, a) != FnvStep(h, b)
  {
  }

  /** A recorded one-byte field that was overwritten since is never put back. */
  lemma OverwrittenByteStays(gen: nat, was: Byte, now: Byte)
    requires was != now
    ensures var es := [NewEntry(gen, 0, [was])];
      InMemory(es, [now]) && AllWellFormed(es) && Undo(es, [now]) == [now]
  {
    hide Fnv;
    var e := NewEntry(gen, 0, [was]);
    assert [was][..1] == [was] && Field([now], e) == [now];
    OneByteDiffers(was, now);
    assert Apply(e, [now]) == [now];
    assert [e][..0] == [];
  }

  lemma MakeRoomInv(es: seq<UndoEntry>, gen: nat)
    requires Inv(es, gen)
    ensures Inv(MakeRoom(es, gen), gen)
    ensures forall e :: e in MakeRoom(es, gen) ==> e in es
  {
    if |es| >= MAX_UNDO_ENTRIES {
      PickInv(es, ScanFrom(es, 0, PreviousGeneration(gen)).idx, gen);
    }
  }

  lemma AppendInv(es: seq<UndoEntry>, gen: nat, e: UndoEntry)
    requires Inv(es, gen) && |es| < MAX_UNDO_ENTRIES && WellFormed(e) && e.generation == gen
    requires forall i :: 0 <= i < |es| ==> es[i].generation != gen || es[i].ptr != e.ptr
    ensures Inv(es + [e], gen)
  {
  }

  lemma RecordingInv(es: seq<UndoEntry>, gen: nat, ptr: nat, value: seq<Byte>)
    requires Inv(es, gen) && HasRoom(es, gen, ptr)
    ensures Inv(Recording(es, gen, ptr, value), gen)
  {
    if !Recorded(es, gen, ptr) {
      var room := MakeRoom(es, gen);
      MakeRoomInv(es, gen);
      forall i | 0 <= i < |room|
        ensures room[i].generation != gen || room[i].ptr != ptr
      {
        assert room[i] in es;
      }
      AppendInv(room, gen, NewEntry(gen, ptr, value));
    }
  }

  lemma RolledBackInv(es: seq<UndoEntry>, gen: nat, t: nat)
    requires Inv(es, gen)
    ensures Inv(RolledBack(es, t), gen)
  {
    var rest := es[..Keep(es, t)];
    SliceInv(es, gen, 0, Keep(es, t));
    SliceInv(rest, gen, CutAt(rest, 4), |rest|);
  }

  /** A field of the previous generation is recorded again among the last 64 entries of the current one. */
  ghost predicate RecordedTwice(es: seq<UndoEntry>, gen: nat) {
    exists k, j :: 0 <= k < j < |es| && TwiceAt(es, gen, k, j)
  }

  ghost predicate TwiceAt(es: seq<UndoEntry>, gen: nat, k: nat, j: nat)
    requires k < |es| && j < |es|
  {
    && es[k].ptr == es[j].ptr && es[k].generation + 1 == gen == es[j].generation
    && |es| - 1 - j < 64
  }

  /**
    Exactly when `record` does not index past the end of the log: the field is recorded already, the log is not full,
    or one of the last 64 entries records a field again that the previous generation recorded.
  */
  lemma HasRoomIff(es: seq<UndoEntry>, gen: nat, ptr: nat)
    requires Inv(es, gen)
    ensures HasRoom(es, gen, ptr) <==> Recorded(es, gen, ptr) || |es| < 256 || RecordedTwice(es, gen)
  {
    hide Recorded, WellFormed, ScanFrom, Renoted, RecordedTwice;
    var keepGen := PreviousGeneration(gen);
    EmergencyRoomIff(es, 0, keepGen);
    RenotedIffTwice(es, gen);
  }

  lemma RenotedIffTwice(es: seq<UndoEntry>, gen: nat)
    requires Inv(es, gen)
    ensures (exists k: nat :: Renoted(es, PreviousGeneration(gen), k)) <==> RecordedTwice(es, gen)
  {
    hide NotedAt, TwiceAt, WellFormed, Sorted, UniqueKeys;
    var keepGen := PreviousGeneration(gen);
    NotedInside(es, keepGen);
    if k: nat :| Renoted(es, keepGen, k) {
      var j: nat :| k < j && NotedAt(es, keepGen, es[k].ptr, j);
      NotedTwice(es, gen, k, j);
    }
    if RecordedTwice(es, gen) {
      var k, j :| 0 <= k < j < |es| && TwiceAt(es, gen, k, j);
      NotedTwice(es, gen, k, j);
      assert Renoted(es, keepGen, k);
    }
  }

  lemma NotedInside(es: seq<UndoEntry>, keepGen: nat)
    ensures forall ptr: nat, j: nat :: NotedAt(es, keepGen, ptr, j) ==> j < |es|
  {
  }

  lemma NotedTwice(es: seq<UndoEntry>, gen: nat, k: nat, j: nat)
    requires Inv(es, gen) && k < j < |es|
    ensures es[k].generation >= PreviousGeneration(gen) && NotedAt(es, PreviousGeneration(gen), es[k].ptr, j)
      <==> TwiceAt(es, gen, k, j)
  {
    hide WellFormed, RecentPtrs;
    if es[j].generation == gen {
      CurrentPtrsCount(es, gen, PreviousGeneration(gen), j + 1);
    }
  }

  /** Entries of the current generation have different fields, so from index i on there are as many as entries. */
  lemma {:induction false} CurrentPtrsCount(es: seq<UndoEntry>, gen: nat, keepGen: nat, i: nat)
    requires Inv(es, gen) && i <= |es| && keepGen <= gen && forall k :: i <= k < |es| ==> es[k].generation == gen
    ensures |RecentPtrs(es, i, keepGen)| == |es| - i
    decreases |es| - i
  {
    hide WellFormed;
    if i < |es| {
      CurrentPtrsCount(es, gen, keepGen, i + 1);
      RecentPtrsStep(es, i, keepGen);
    } else {
      assert RecentPtrs(es, i, keepGen) == {};
    }
  }

  /** A log that is full of entries of the current generation has no room: `record` of a new field panics. */
  lemma FullGenerationHasNoRoom(es: seq<UndoEntry>, gen: nat, ptr: nat)
    requires Inv(es, gen) && |es| == MAX_UNDO_ENTRIES && !Recorded(es, gen, ptr)
    requires forall i :: 0 <= i < |es| ==> es[i].generation == gen
    ensures !HasRoom(es, gen, ptr)
  {
    var keepGen := PreviousGeneration(gen);
    EmergencyRoomIff(es, 0, keepGen);
    forall k: nat
      ensures !Renoted(es, keepGen, k)
    {
      if k < |es| { EmergencyKeeps(es, gen, keepGen, k); }
    }
  }

  /** 256 one-byte fields recorded in one generation: the 257th record panics. */
  lemma NoRoomExample()
    ensures var es := seq(MAX_UNDO_ENTRIES, (i: nat) => NewEntry(0, i, [1]));
      Inv(es, 0) && !HasRoom(es, 0, MAX_UNDO_ENTRIES)
  {
    hide Fnv, HasRoom, WellFormed;
    var es := seq(MAX_UNDO_ENTRIES, (i: nat) => NewEntry(0, i, [1]));
    assert forall i :: 0 <= i < |es| ==> es[i].generation == 0 && es[i].ptr == i && WellFormed(es[i]);
    FullGenerationHasNoRoom(es, 0, MAX_UNDO_ENTRIES);
  }

  datatype LogOp =
    | Record(ptr: nat, value: seq<Byte>)
    | SetGeneration(gen: nat)
    | Rollback(target: nat)
    | CompactKeeping(generations: nat)

  datatype Log = Log(es: seq<UndoEntry>, gen: nat)

  ghost predicate Allowed(s: Log, op: LogOp) {
    match op
    case Record(ptr, _) => HasRoom(s.es, s.gen, ptr)
    case SetGeneration(g) => s.gen <= g
    case _ => true
  }

  ghost function LogStep(s: Log, op: LogOp): Log {
    match op
    case Record(ptr, value) => s.(es := Recording(s.es, s.gen, ptr, value))
    case SetGeneration(g) => s.(gen := g)
    case Rollback(t) => s.(es := RolledBack(s.es, t))
    case CompactKeeping(k) => s.(es := Compacted(s.es, k))
  }

  ghost function LogRun(s: Log, ops: seq<LogOp>): Log {
    if ops == [] then s else LogStep(LogRun(s, ops[..|ops| - 1]), ops[|ops| - 1])
  }

  ghost predicate AllowedRun(s: Log, ops: seq<LogOp>) {
    forall i :: 0 <= i < |ops| ==> Allowed(LogRun(s, ops[..i]), ops[i])
  }

  /** Over every run with non-decreasing generations the log stays sorted with one entry per generation and field. */
  lemma {:induction false} RunKeepsInv(ops: seq<LogOp>)
    requires AllowedRun(Log([], 0), ops)
    ensures Inv(LogRun(Log([], 0), ops).es, LogRun(Log([], 0), ops).gen)
    decreases |ops|
  {
    if ops != [] {
      var front, op := ops[..|ops| - 1], ops[|ops| - 1];
      assert forall i :: 0 <= i < |front| ==> front[..i] == ops[..i];
      RunKeepsInv(front);
      var s := LogRun(Log([], 0), front);
      assert Allowed(s, op);
      match op
      case Record(ptr, value) => RecordingInv(s.es, s.gen, ptr, value);
      case SetGeneration(g) =>
      case Rollback(t) => RolledBackInv(s.es, s.gen, t);
      case CompactKeeping(k) => SliceInv(s.es, s.gen, CutAt(s.es, k), |s.es|);
    }
  }
}
