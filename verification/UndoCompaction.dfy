/** Exactly what the compaction to the newest generations drops, and what a rollback leaves in the log. */
module UndoCompaction {
  import opened Bits
  import opened UndoSpec

  // ----- the starts of the generations

  /** Entry j is the first of its generation. */
  ghost predicate StartsGeneration(es: seq<UndoEntry>, j: nat) {
    j < |es| && (j == 0 || es[j - 1].generation < es[j].generation)
  }

  lemma {:induction false} FirstOfGeneration(es: seq<UndoEntry>, j: nat) returns (i: nat)
    requires Sorted(es) && j < |es|
    ensures i <= j && es[i].generation == es[j].generation && StartsGeneration(es, i)
  {
    if j == 0 || es[j - 1].generation < es[j].generation {
      i := j;
    } else {
      i := FirstOfGeneration(es, j - 1);
    }
  }

  /** The scan finds every start, except that of a log whose only generation is the largest 64-bit number. */
  lemma {:induction false} RunStartsComplete(es: seq<UndoEntry>, from: nat, prev: nat, j: nat)
    requires Sorted(es) && from <= j && StartsGeneration(es, j)
    requires if from == 0 then prev == U64_LIMIT - 1 else prev == es[from - 1].generation
    requires es[0].generation < U64_LIMIT - 1
    ensures j in RunStarts(es, from, prev)
    decreases |es| - from
  {
    if from < j {
      RunStartsComplete(es, from + 1, es[from].generation, j);
    }
  }

  lemma {:induction false} StartGensHas(es: seq<UndoEntry>, g: seq<nat>, lo: nat, i: nat)
    requires lo <= i < |g| && forall k :: 0 <= k < |g| ==> g[k] < |es|
    ensures es[g[i]].generation in StartGens(es, g, lo)
    decreases |g| - lo
  {
    if lo < i {
      StartGensHas(es, g, lo + 1, i);
    }
  }

  /** The generations not older than that of start lo are those of the starts from lo on. */
  lemma StartGensAre(es: seq<UndoEntry>, lo: nat)
    requires Sorted(es) && UpTo(es, U64_LIMIT - 1) && es != [] && es[0].generation < U64_LIMIT - 1
    requires lo < |RunStarts(es, 0, U64_LIMIT - 1)|
    ensures var r := RunStarts(es, 0, U64_LIMIT - 1);
      && StartGens(es, r, lo) == (set x | x in Gens(es) && es[r[lo]].generation <= x)
      && Gens(es[r[lo]..]) == StartGens(es, r, lo)
  {
    hide RunStarts, StartGens, Gens;
    var r := RunStarts(es, 0, U64_LIMIT - 1);
    forall x: nat
      ensures x in StartGens(es, r, lo) <==> x in Gens(es) && es[r[lo]].generation <= x
      ensures x in StartGens(es, r, lo) <==> x in Gens(es[r[lo]..])
    {
      StartGensAt(es, r, lo, x);
    }
  }

  lemma StartGensAt(es: seq<UndoEntry>, r: seq<nat>, lo: nat, x: nat)
    requires Sorted(es) && UpTo(es, U64_LIMIT - 1) && es != [] && es[0].generation < U64_LIMIT - 1
    requires r == RunStarts(es, 0, U64_LIMIT - 1) && lo < |r|
    ensures x in StartGens(es, r, lo) <==> x in Gens(es) && es[r[lo]].generation <= x
    ensures x in StartGens(es, r, lo) <==> x in Gens(es[r[lo]..])
  {
    hide RunStarts, StartGens, Gens;
    RunStartsOrdered(es, 0, U64_LIMIT - 1);
    StartGensKept(es, r, lo, r[lo]);
    if x in Gens(es[r[lo]..]) {
      TailGeneration(es, r[lo], x);
    }
    if x in Gens(es) && es[r[lo]].generation <= x {
      NewGenerationListed(es, r, lo, x);
    }
  }

  lemma TailGeneration(es: seq<UndoEntry>, f: nat, x: nat)
    requires Sorted(es) && f < |es| && x in Gens(es[f..])
    ensures x in Gens(es) && es[f].generation <= x
  {
    var e :| e in es[f..] && e.generation == x;
    var i :| 0 <= i < |es| - f && es[f..][i] == e;
    assert es[f + i] in es;
  }

  lemma NewGenerationListed(es: seq<UndoEntry>, r: seq<nat>, lo: nat, x: nat)
    requires Sorted(es) && UpTo(es, U64_LIMIT - 1) && es != [] && es[0].generation < U64_LIMIT - 1
    requires r == RunStarts(es, 0, U64_LIMIT - 1) && lo < |r| && x in Gens(es) && es[r[lo]].generation <= x
    ensures x in StartGens(es, r, lo)
  {
    hide RunStarts, StartGens;
    RunStartsOrdered(es, 0, U64_LIMIT - 1);
    var e :| e in es && e.generation == x;
    var j :| 0 <= j < |es| && es[j] == e;
    var i := FirstOfGeneration(es, j);
    RunStartsComplete(es, 0, U64_LIMIT - 1, i);
    var q :| 0 <= q < |r| && r[q] == i;
    StartsAscend(es, r, q, lo);
    StartGensHas(es, r, lo, q);
  }

  lemma StartsAscend(es: seq<UndoEntry>, r: seq<nat>, q: nat, lo: nat)
    requires Sorted(es) && Increasing(r) && StartRuns(es, r) && q < |r| && lo < |r|
    ensures q < lo ==> es[r[q]].generation < es[r[lo]].generation
  {
    if q < lo {
      OlderBeforeRun(es, r[q], r[lo]);
    }
  }

  // ----- how many generations are dropped

  /** The generations of the log older than x. */
  function Older(es: seq<UndoEntry>, x: nat): set<nat> {
    set y | y in Gens(es) && y < x
  }

  /** The table holds the starts of the first sixteen generations; all but the last `keep` of these are dropped. */
  function DropCount(generations: nat, keep: nat): nat {
    if keep == 0 || keep >= Min(generations, 16) then 0 else Min(generations, 16) - keep
  }

  lemma StartsCount(es: seq<UndoEntry>)
    requires Sorted(es) && UpTo(es, U64_LIMIT - 1) && es != [] && es[0].generation < U64_LIMIT - 1
    ensures |RunStarts(es, 0, U64_LIMIT - 1)| == |Gens(es)|
  {
    hide StartGens, RunStarts;
    var r := RunStarts(es, 0, U64_LIMIT - 1);
    RunStartsOrdered(es, 0, U64_LIMIT - 1);
    RunStartsComplete(es, 0, U64_LIMIT - 1, 0);
    assert r[0] == 0;
    StartGensAre(es, 0);
    StartGensDistinct(es, r, 0);
    assert es[0..] == es;
  }

  lemma SingleGeneration(es: seq<UndoEntry>)
    requires Sorted(es) && UpTo(es, U64_LIMIT - 1) && (es == [] || es[0].generation == U64_LIMIT - 1)
    ensures |Gens(es)| <= 1
  {
    assert forall e :: e in es ==> e.generation == U64_LIMIT - 1;
    SubsetCard(Gens(es), {U64_LIMIT - 1});
  }

  /** A run of equal largest generations has no start. */
  lemma {:induction false} NoStarts(es: seq<UndoEntry>, from: nat)
    requires from <= |es| && forall i :: 0 <= i < |es| ==> es[i].generation == U64_LIMIT - 1
    ensures RunStarts(es, from, U64_LIMIT - 1) == []
    decreases |es| - from
  {
    if from < |es| {
      NoStarts(es, from + 1);
    }
  }

  /** The cut is at the start of the generation with exactly as many older ones as are dropped. */
  lemma CutIs(es: seq<UndoEntry>, keep: nat)
    requires Sorted(es) && UpTo(es, U64_LIMIT - 1)
    ensures var d, f := DropCount(|Gens(es)|, keep), CutAt(es, keep);
      if d == 0 then f == 0
      else
        && f < |es| && StartsGeneration(es, f)
        && |Older(es, es[f].generation)| == d && |Gens(es[f..])| == |Gens(es)| - d
  {
    hide RunStarts, StartGens, Older;
    var g, r := GenStarts(es), RunStarts(es, 0, U64_LIMIT - 1);
    if es == [] || es[0].generation == U64_LIMIT - 1 {
      SingleGeneration(es);
      NoStarts(es, 0);
    } else {
      StartsCount(es);
      if 0 < keep < |g| {
        CutAtStart(es, |g| - keep);
        assert g[|g| - keep] == r[|g| - keep];
      }
    }
  }

  lemma CutAtStart(es: seq<UndoEntry>, lo: nat)
    requires Sorted(es) && UpTo(es, U64_LIMIT - 1) && es != [] && es[0].generation < U64_LIMIT - 1
    requires 0 < lo < |RunStarts(es, 0, U64_LIMIT - 1)|
    ensures var r := RunStarts(es, 0, U64_LIMIT - 1);
      && StartsGeneration(es, r[lo])
      && |Older(es, es[r[lo]].generation)| == lo && |Gens(es[r[lo]..])| == |Gens(es)| - lo
  {
    hide RunStarts, StartGens, Gens, Older;
    var r := RunStarts(es, 0, U64_LIMIT - 1);
    RunStartsOrdered(es, 0, U64_LIMIT - 1);
    StartsCount(es);
    StartGensAre(es, lo);
    StartGensDistinct(es, r, lo);
    OlderComplement(es, es[r[lo]].generation, StartGens(es, r, lo));
  }

  lemma OlderComplement(es: seq<UndoEntry>, x: nat, newer: set<nat>)
    requires newer == set y | y in Gens(es) && x <= y
    ensures |Older(es, x)| + |newer| == |Gens(es)|
  {
    hide Gens;
    assert Older(es, x) + newer == Gens(es) && Older(es, x) !! newer;
  }

  /** An entry at or after the start of a generation has at least as many older generations, one before it fewer. */
  lemma OlderCount(es: seq<UndoEntry>, f: nat, j: nat)
    requires Sorted(es) && StartsGeneration(es, f) && j < |es|
    ensures f <= j <==> |Older(es, es[j].generation)| >= |Older(es, es[f].generation)|
  {
    if f <= j {
      SubsetCard(Older(es, es[f].generation), Older(es, es[j].generation));
    } else {
      OlderBeforeRun(es, j, f);
      var x := es[j].generation;
      assert es[j] in es;
      assert Older(es, x) + {x} <= Older(es, es[f].generation) && x !in Older(es, x);
      SubsetCard(Older(es, x) + {x}, Older(es, es[f].generation));
    }
  }

  /**
    compact_keeping drops exactly the entries of the oldest generations: of at most sixteen generations all but the
    newest `keep`, of more as many as of sixteen.  What stays is a suffix.
  */
  lemma CompactedExact(es: seq<UndoEntry>, keep: nat)
    requires Sorted(es) && UpTo(es, U64_LIMIT - 1)
    ensures var r, d := Compacted(es, keep), DropCount(|Gens(es)|, keep);
      && |r| <= |es| && r == es[|es| - |r|..]
      && (forall j :: 0 <= j < |es| ==> (|es| - |r| <= j <==> |Older(es, es[j].generation)| >= d))
      && |Gens(r)| == |Gens(es)| - d
  {
    hide CutAt, Older, Gens, DropCount;
    CutIs(es, keep);
    var f, d := CutAt(es, keep), DropCount(|Gens(es)|, keep);
    assert f == 0 ==> es[f..] == es;
    forall j | 0 <= j < |es|
      ensures f <= j <==> |Older(es, es[j].generation)| >= d
    {
      if d > 0 { OlderCount(es, f, j); }
    }
  }

  // ----- what a rollback leaves

  /** The entries before n are exactly those older than t. */
  ghost predicate OlderBefore(es: seq<UndoEntry>, t: nat, n: nat) {
    n <= |es| && forall i :: 0 <= i < |es| ==> (i < n <==> es[i].generation < t)
  }

  /**
    rollback_to leaves exactly the entries older than t, in order, when there are at most 128 of them; of more it
    drops the oldest generations as compact_keeping(4) does.
  */
  lemma RolledBackExact(es: seq<UndoEntry>, t: nat) returns (n: nat, f: nat)
    requires Sorted(es) && UpTo(es, U64_LIMIT - 1)
    ensures OlderBefore(es, t, n) && f <= n && RolledBack(es, t) == es[f..n]
    ensures n <= 128 ==> f == 0 && forall e :: e in RolledBack(es, t) <==> e in es && e.generation < t
    ensures n > 128 ==> forall j :: 0 <= j < n ==>
      (f <= j <==> |Older(es[..n], es[j].generation)| >= DropCount(|Gens(es[..n])|, 4))
  {
    hide Compacted, Keep, Older, Gens, DropCount;
    n, f := Keep(es, t), 0;
    forall i | 0 <= i < |es|
      ensures i < n <==> es[i].generation < t
    {
      KeepIsExact(es, t, i);
    }
    var p := es[..n];
    if n > 128 {
      CompactedExact(p, 4);
      f := n - |Compacted(p, 4)|;
      assert p[f..] == es[f..n];
      assert forall j :: 0 <= j < n ==> p[j] == es[j];
    } else {
      assert es[0..n] == p;
      SurvivorsAre(es, t, n);
    }
  }

  lemma SurvivorsAre(es: seq<UndoEntry>, t: nat, n: nat)
    requires OlderBefore(es, t, n)
    ensures forall e :: e in es[..n] <==> e in es && e.generation < t
  {
    forall e
      ensures e in es[..n] <==> e in es && e.generation < t
    {
      if e in es && e.generation < t {
        var i :| 0 <= i < |es| && es[i] == e;
        assert es[..n][i] == e;
      }
    }
  }
}
