/** The rules of a recovery domain in plain numbers: when a rollback is granted, what a tick does, what is left. */
module DomainLaws {
  import opened Bits
  import opened UndoSpec
  import opened UndoCompaction
  import opened DomainSpec

  // ----- attempts

  /** Fewer than five failures, no repeated crash, and the wait is over. */
  ghost predicate MayRollBack(g: Guard, tick: nat, fp: nat) {
    g.failures < 5 && (fp == 0 || fp != g.lastFingerprint) && g.backoffUntil <= tick
  }

  /** Exactly when an attempt is granted, and what every attempt leaves behind. */
  lemma AttemptLaw(g: Guard, tick: nat, fp: nat)
    ensures TryOk(g, tick, fp) <==> MayRollBack(g, tick, fp)
    ensures var g' := Try(g, tick, fp);
      && (MayRollBack(g, tick, fp) ==>
            && g'.backoffUntil == tick + GAP_TICKS[g.failures] && g'.lastRollback == tick
            && g'.rollbackCount == g.rollbackCount + 1 && g'.failures == g.failures + 1 && g'.lastFingerprint == fp)
      && (!MayRollBack(g, tick, fp) ==>
            && g'.backoffUntil == g.backoffUntil && g'.lastRollback == g.lastRollback
            && g'.rollbackCount == g.rollbackCount && g'.caps == g.caps)
      && (g.failures >= 5 ==> g' == g.(state := Quarantined))
      && (g.failures < 5 && fp != 0 && fp == g.lastFingerprint ==> g' == g.(failures := 5, state := Quarantined))
      && (g.failures < 5 && (fp == 0 || fp != g.lastFingerprint) && tick < g.backoffUntil ==>
            g' == g.(lastFingerprint := fp))
  {
    hide Backoff;
    BackoffIs(g.failures);
  }

  /** The guard and tick an operation tries a rollback with are granted exactly under the rule. */
  lemma GrantedLaw(d: Dom, op: DomOp)
    ensures Granted(d, op) <==> Tries(d, op).Some? && var (g, tick, fp) := Tries(d, op).value; MayRollBack(g, tick, fp)
  {
    if Tries(d, op).Some? {
      var (g, tick, fp) := Tries(d, op).value;
      hide Tries, TryOk, MayRollBack;
      AttemptLaw(g, tick, fp);
    }
  }

  /** Without a grant the end of the wait does not move. */
  lemma {:induction false} WaitStays(d: Dom, ops: seq<DomOp>, i: nat)
    requires |d.barriers.ring| == MAX_BARRIER_SNAPSHOTS && i <= |ops|
    requires forall k :: i <= k < |ops| ==> !Granted(Run(d, ops[..k]), ops[k])
    ensures Run(d, ops).guard.backoffUntil == Run(d, ops[..i]).guard.backoffUntil
    decreases |ops|
  {
    hide Step, Granted;
    if i < |ops| {
      var front := ops[..|ops| - 1];
      assert forall k :: 0 <= k <= |front| ==> front[..k] == ops[..k];
      forall k | i <= k < |front|
        ensures !Granted(Run(d, front[..k]), front[k])
      {
        assert !Granted(Run(d, ops[..k]), ops[k]);
      }
      WaitStays(d, front, i);
      assert !Granted(Run(d, ops[..|front|]), ops[|front|]);
      GrantSetsBackoff(Run(d, front), ops[|ops| - 1]);
    } else {
      assert ops[..i] == ops;
    }
  }

  /**
    After a rollback granted at f failures the next attempt is granted exactly when 100, 200, 400, 800 or 1600 ticks
    have passed, the domain has fewer than five failures and the crash is not a repeated one.
  */
  lemma NextGrantIff(d: Dom, ops: seq<DomOp>, i: nat)
    requires |d.barriers.ring| == MAX_BARRIER_SNAPSHOTS && i < |ops| - 1
    requires Granted(Run(d, ops[..i]), ops[i])
    requires forall k :: i < k < |ops| - 1 ==> !Granted(Run(d, ops[..k]), ops[k])
    requires Tries(Run(d, ops[..|ops| - 1]), ops[|ops| - 1]).Some?
    ensures Tries(Run(d, ops[..i]), ops[i]).Some?
    ensures var (g, tick, _) := Tries(Run(d, ops[..i]), ops[i]).value;
      var (g', tick', fp) := Tries(Run(d, ops[..|ops| - 1]), ops[|ops| - 1]).value;
      && g.failures < 5
      && (Granted(Run(d, ops[..|ops| - 1]), ops[|ops| - 1]) <==>
            g'.failures < 5 && (fp == 0 || fp != g'.lastFingerprint) && tick' >= tick + GAP_TICKS[g.failures])
  {
    hide Run, Step, Granted, Tries, TryOk, Backoff;
    var front := ops[..|ops| - 1];
    var s, s' := Run(d, ops[..i]), Run(d, front);
    GrantedLaw(s, ops[i]);
    GrantedLaw(s', ops[|ops| - 1]);
    GrantSetsBackoff(s, ops[i]);
    BackoffIs(Tries(s, ops[i]).value.0.failures);
    RunSnoc(d, ops, i);
    assert forall k :: 0 <= k <= |front| ==> front[..k] == ops[..k];
    WaitStays(d, front, i + 1);
    TriesKeepWait(s', ops[|ops| - 1]);
  }

  lemma TriesKeepWait(d: Dom, op: DomOp)
    ensures Tries(d, op).Some? ==> Tries(d, op).value.0.backoffUntil == d.guard.backoffUntil
  {
  }

  // ----- the tick

  ghost predicate BarrierTime(d: Dom, tick: nat) {
    (d.guard.state == Active || d.guard.state == Degraded) && d.barriers.next <= tick
  }

  /** Every tick at or after its time takes one barrier of an active or degraded domain, and none otherwise. */
  lemma BarrierLaw(d: Dom, tick: nat)
    requires |d.barriers.ring| == MAX_BARRIER_SNAPSHOTS
    ensures var b, b' := d.barriers, Tick(d, tick).barriers;
      && (!BarrierTime(d, tick) ==> b' == b)
      && (BarrierTime(d, tick) ==>
            && b'.generation == b.generation + 1 && b'.top == b.top + 1 && b'.interval == b.interval
            && b'.next == tick + b.interval
            && b'.ring == b.ring[b.top % 8 := Snapshot(b.generation + 1, tick, |d.log.es|)])
  {
    hide RolledBack, Try;
  }

  /** The heartbeat is overdue: a limit is set, one was seen, and it is longer ago than the limit. */
  ghost predicate Overdue(d: Dom, tick: nat) {
    d.upkeep.heartbeatMaxGap != 0 && d.upkeep.lastHeartbeat != 0
    && tick > d.upkeep.lastHeartbeat + d.upkeep.heartbeatMaxGap
  }

  /** A domain whose heartbeat is not overdue loses nothing in a tick; the first tick under a limit arms it. */
  lemma HeartbeatLaw(d: Dom, tick: nat)
    requires |d.barriers.ring| == MAX_BARRIER_SNAPSHOTS && !Overdue(d, tick)
    ensures var d' := Tick(d, tick);
      && d'.guard == d.guard && d'.log == d.log && !Escalates(d, tick)
      && d'.upkeep.lastHeartbeat ==
           (if d.upkeep.heartbeatMaxGap != 0 && d.upkeep.lastHeartbeat == 0 then tick else d.upkeep.lastHeartbeat)
      && d'.upkeep.quotaConsumed ==
           (if d.upkeep.quotaPeriod > 0 && tick % d.upkeep.quotaPeriod == 0 then 0 else d.upkeep.quotaConsumed)
  {
    hide RolledBack, Try, TakeBarrier;
  }

  /**
    A missed heartbeat counts as a failure.  The first and the second lead to a rollback attempt at depth 0 if the
    wait is over, from the third on the tick asks for a system reset.
  */
  lemma MissedLaw(d: Dom, tick: nat)
    requires |d.barriers.ring| == MAX_BARRIER_SNAPSHOTS && Overdue(d, tick)
    ensures var g, g' := d.guard, Tick(d, tick).guard;
      && (Escalates(d, tick) <==> g.failures >= 2)
      && (g.failures >= 2 ==> g' == g.(failures := g.failures + 1) && Tick(d, tick).log == d.log)
      && (g.failures < 2 && tick < g.backoffUntil ==>
            g' == g.(failures := g.failures + 1, lastFingerprint := 0) && Tick(d, tick).log == d.log)
      && (g.failures < 2 && tick >= g.backoffUntil ==>
            && g'.failures == 0 && g'.state == Active && g'.caps == g.originalCaps && g'.lastFingerprint == 0
            && g'.rollbackCount == g.rollbackCount + 1 && g'.lastRollback == tick
            && g'.backoffUntil == tick + GAP_TICKS[g.failures + 1])
  {
    hide RolledBack, TakeBarrier, Backoff;
    BackoffIs(d.guard.failures + 1);
  }

  // ----- rollback, boot check and records

  /**
    What a granted visit leaves: an active domain without failures and with all rights, whose log is at the domain's
    generation and, with at most 128 older entries, holds exactly the entries older than the generation aimed at.
  */
  lemma RollbackLaw(d: Dom, tick: nat, fp: nat, depth: nat)
    requires WellFormedDom(d) && MayRollBack(d.guard, tick, fp)
    ensures var d', t := Attempt(d, tick, fp, depth), TargetGeneration(d.barriers, depth);
      && d'.guard.failures == 0 && d'.guard.state == Active && d'.guard.caps == d.guard.originalCaps
      && d'.barriers == d.barriers && d'.upkeep == d.upkeep
      && d'.dependsOn == d.dependsOn && d'.dependedBy == d.dependedBy
      && d'.log.gen == d.barriers.generation
      && (|d.log.es| <= 128 || d.log.es[128].generation >= t ==>
            d'.log.es <= d.log.es && forall e :: e in d'.log.es <==> e in d.log.es && e.generation < t)
  {
    hide Keep, RolledBack, Backoff, TargetGeneration, Inv;
    AttemptLaw(d.guard, tick, fp);
    var es, t := d.log.es, TargetGeneration(d.barriers, depth);
    LogIsSorted(d);
    var n, f := RolledBackExact(es, t);
    assert |es| <= 128 || es[128].generation >= t ==> n <= 128;
    assert n <= 128 ==> es[f..n] <= es;
  }

  lemma LogIsSorted(d: Dom)
    requires WellFormedDom(d)
    ensures Sorted(d.log.es) && UpTo(d.log.es, U64_LIMIT - 1)
  {
  }

  /** The boot check relabels exactly the domains with a stored fingerprint and three failures or more. */
  lemma BootLaw(d: Dom)
    requires |d.barriers.ring| == MAX_BARRIER_SNAPSHOTS
    ensures var d' := Step(d, BootOp);
      && (d.guard.lastFingerprint != 0 && d.guard.failures >= 3 ==>
            d' == d.(guard := d.guard.(state := Degraded, lastFingerprint := 0)))
      && (d.guard.lastFingerprint == 0 || d.guard.failures < 3 ==> d' == d)
  {
  }

  /** A stored fingerprint makes the next crash with it a repeated one; zero is not stored, and nothing else changes. */
  lemma PersistLaw(d: Dom, fp: nat, tick: nat)
    requires |d.barriers.ring| == MAX_BARRIER_SNAPSHOTS
    ensures var d' := Step(d, PersistOp(fp));
      && (fp == 0 ==> d' == d)
      && (fp != 0 ==> d' == d.(guard := d.guard.(lastFingerprint := fp)) && !MayRollBack(d'.guard, tick, fp))
  {
  }

  /** A heartbeat renews the limit: no tick up to that many ticks later finds the domain overdue. */
  lemma HeartbeatRenews(d: Dom, beat: nat, tick: nat)
    requires |d.barriers.ring| == MAX_BARRIER_SNAPSHOTS && tick <= beat + d.upkeep.heartbeatMaxGap
    ensures var d' := Step(d, HeartbeatOp(beat));
      && !Overdue(d', tick) && d'.guard == d.guard && d'.log == d.log && d'.barriers == d.barriers
      && d'.upkeep.heartbeatMaxGap == d.upkeep.heartbeatMaxGap
  {
  }

  /** A new domain: five of its numbers as the kernel sets them, and all 64 rights. */
  lemma FreshLaw(right: nat)
    ensures var d := FreshDom();
      && d.barriers.interval == 100 && d.barriers.next == 100 && |d.barriers.ring| == 8
      && |d.dependsOn| == 8 && |d.dependedBy| == 8
      && (right in d.guard.caps <==> right < 64) && d.guard.caps == d.guard.originalCaps
  {
    BitsBelowIs(64, right);
  }

  lemma {:induction false} BitsBelowIs(n: nat, right: nat)
    ensures right in BitsBelow(n) <==> right < n
  {
    if n > 0 {
      BitsBelowIs(n - 1, right);
    }
  }

  /** A field recorded through a recoverable lock is undone by the next rollback at depth 0. */
  lemma SyncedRecordIsPopped(d: Dom, ptr: nat, value: seq<Byte>)
    requires WellFormedDom(d) && HasRoom(d.log.es, d.barriers.generation, ptr)
    ensures Entries(RecordField(d, true, ptr, value), 0) > 0
  {
    hide Inv, HasRoom, MakeRoom, Keep, Fnv;
    RecordWellFormed(d, true, ptr, value);
    var d' := RecordField(d, true, ptr, value);
    var es, gen := d.log.es, d.barriers.generation;
    PopsSinceBarrier(d');
    if Recorded(es, gen, ptr) {
      var i :| 0 <= i < |es| && es[i].generation == gen && es[i].ptr == ptr;
      assert d'.log.es[i].generation == gen;
    } else {
      assert d'.log.es[|d'.log.es| - 1].generation == gen;
    }
  }

  /** A plain record into a log that is behind the domain's generation is not. */
  lemma StaleRecordStays(d: Dom, ptr: nat, value: seq<Byte>)
    requires WellFormedDom(d) && d.log.gen < d.barriers.generation
    ensures Entries(RecordField(d, false, ptr, value), 0) == 0
  {
    hide HasRoom, MakeRoom, Keep, Fnv, Recording;
    RecordWellFormed(d, false, ptr, value);
    PopsSinceBarrier(RecordField(d, false, ptr, value));
  }
}
