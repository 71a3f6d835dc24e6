/** A recovery domain: the object whose fields the kernel updates in place. */
module Domains {
  import opened Bits
  import opened Results
  import opened Sequences
  import opened UndoSpec
  import opened UndoLogs
  import opened DomainSpec

  class RecoveryDomain {
    const id: nat
    const undo: UndoLog
    var state: DomainState
    var barrierGeneration: nat
    var barrierInterval: nat
    var nextBarrierTick: nat
    var rollbackCount: nat
    var consecutiveFailures: nat
    var lastCrashFingerprint: nat
    var lastRollbackTime: nat
    var backoffUntil: nat
    var dependsOn: seq<Option<nat>>
    var dependedBy: seq<Option<nat>>
    var domCapMask: CapMask
    var originalCapMask: CapMask
    var quotaPeriod: nat
    var quotaConsumed: nat
    var lastHeartbeat: nat
    var heartbeatMaxGap: nat
    var barrierStack: seq<Snapshot>
    var barrierStackTop: nat

    ghost function GuardView(): Guard
      reads this
    {
      Guard(state, consecutiveFailures, lastCrashFingerprint, rollbackCount, lastRollbackTime, backoffUntil,
            domCapMask, originalCapMask)
    }

    ghost function BarrierView(): Barriers
      reads this
    {
      Barriers(barrierGeneration, barrierInterval, nextBarrierTick, barrierStack, barrierStackTop)
    }

    ghost function UpkeepView(): Upkeep
      reads this
    {
      Upkeep(lastHeartbeat, heartbeatMaxGap, quotaPeriod, quotaConsumed)
    }

    /** The domain's value. */
    ghost function View(): Dom
      reads this, undo, undo.entries
    {
      Dom(GuardView(), BarrierView(), UpkeepView(), dependsOn, dependedBy, Log(undo.Contents(), undo.currentGeneration))
    }

    ghost predicate Valid()
      reads this, undo, undo.entries
    {
      undo.Valid() && WellFormedDom(View())
    }

    constructor (domainId: nat)
      ensures Valid() && id == domainId && fresh(undo) && fresh(undo.entries)
      ensures View() == FreshDom()
    {
      id := domainId;
      var log := new UndoLog();
      undo := log;
      state := Active;
      barrierGeneration := 0;
      barrierInterval := DEFAULT_BARRIER_INTERVAL;
      nextBarrierTick := DEFAULT_BARRIER_INTERVAL;
      rollbackCount := 0;
      consecutiveFailures := 0;
      lastCrashFingerprint := 0;
      lastRollbackTime := 0;
      backoffUntil := 0;
      dependsOn := seq(MAX_DOMAIN_DEPENDENCIES, _ => None);
      dependedBy := seq(MAX_DOMAIN_DEPENDENCIES, _ => None);
      domCapMask := BitsBelow(64);
      originalCapMask := BitsBelow(64);
      quotaPeriod := 0;
      quotaConsumed := 0;
      lastHeartbeat := 0;
      heartbeatMaxGap := 0;
      barrierStack := seq(MAX_BARRIER_SNAPSHOTS, _ => Snapshot(0, 0, 0));
      barrierStackTop := 0;
    }

    // ----- rollback attempts

    /** try_rollback: refuse, quarantine, back off or grant. */
    method TryRollback(tick: nat, fp: nat) returns (ok: bool)
      requires Valid()
      modifies this
      ensures Valid() && View() == TryDom(old(View()), tick, fp)
      ensures ok == TryOk(old(View()).guard, tick, fp)
    {
      hide Inv, Backoff, Degrade;
      var failures := consecutiveFailures;
      if failures >= MAX_CONSECUTIVE_FAILURES {
        state := Quarantined;
        return false;
      }
      var prev := lastCrashFingerprint;
      lastCrashFingerprint := fp;
      if fp != 0 && prev == fp {
        consecutiveFailures := MAX_CONSECUTIVE_FAILURES;
        state := Quarantined;
        return false;
      }
      var backoff := Backoff(failures);
      if tick < backoffUntil {
        return false;
      }
      backoffUntil := tick + backoff;
      consecutiveFailures := consecutiveFailures + 1;
      rollbackCount := rollbackCount + 1;
      lastRollbackTime := tick;
      ApplyDegradation();
      ok := true;
    }

    method ApplyDegradation()
      requires Valid()
      modifies this`state, this`domCapMask
      ensures Valid() && View() == old(View()).(guard := Degrade(old(View()).guard))
    {
      hide Inv;
      if 1 <= consecutiveFailures <= 2 {
        domCapMask := originalCapMask;
      } else if consecutiveFailures == 3 {
        domCapMask := originalCapMask - {CAP_FS_WRITE};
        state := Degraded;
      } else if consecutiveFailures == 4 {
        domCapMask := originalCapMask - {CAP_FS_WRITE, CAP_NET_SEND, CAP_PROC_CREATE};
        state := Degraded;
      } else {
        state := Quarantined;
      }
    }

    method MarkAsRecovered()
      requires Valid()
      modifies this`consecutiveFailures, this`domCapMask
      ensures Valid() && View() == old(View()).(guard := MarkRecovered(old(View()).guard))
    {
      hide Inv;
      consecutiveFailures := 0;
      domCapMask := originalCapMask;
    }

    // ----- barriers

    method PushBarrierSnapshot(tick: nat)
      requires Valid()
      modifies this`barrierStack, this`barrierStackTop
      ensures Valid()
      ensures View() == old(View()).(barriers := PushSnapshot(old(View()).barriers, tick, |old(View()).log.es|))
    {
      hide Inv;
      var idx := barrierStackTop % MAX_BARRIER_SNAPSHOTS;
      barrierStack := barrierStack[idx := Snapshot(barrierGeneration, tick, undo.count)];
      barrierStackTop := barrierStackTop + 1;
    }

    method GetRollbackGeneration(levelsBack: nat) returns (gen: nat)
      requires Valid()
      ensures gen == RollbackGeneration(View().barriers, levelsBack)
    {
      hide Inv;
      if barrierStackTop == 0 {
        return 0;
      }
      var target := SatSub(barrierStackTop, levelsBack);
      var idx := SatSub(target, 1) % MAX_BARRIER_SNAPSHOTS;
      gen := barrierStack[idx].generation;
    }

    /** rollback_domain: roll the undo log back and mark the domain recovered. */
    method Rollback(mem: Memory, depth: nat) returns (entries: nat)
      requires Valid() && InMemory(View().log.es, mem.bytes)
      modifies this, undo`count, undo`currentGeneration, undo.entries, mem
      ensures Valid() && View() == Heal(old(View()), depth)
      ensures entries == Entries(old(View()), depth)
      ensures Loaded(old(View()), |old(mem.bytes)|) && mem.bytes == HealMemory(old(View()), depth, old(mem.bytes))
      ensures InMemory(View().log.es, mem.bytes) && |mem.bytes| == |old(mem.bytes)|
    {
      hide Inv, RolledBack, RollbackMemory, Keep, AllWellFormed;
      ghost var d := View();
      LoadedDom(d, mem.bytes);
      HealWellFormed(d, depth);
      WiderGeneration(d.log.es, d.log.gen, d.barriers.generation);
      RolledBackInMemory(d.log.es, TargetGeneration(d.barriers, depth), mem.bytes);
      var genFrom := barrierGeneration;
      var targetGen := genFrom;
      if depth > 0 {
        targetGen := GetRollbackGeneration(depth);
      }
      state := RollingBack;
      undo.currentGeneration := barrierGeneration;
      entries := undo.RollbackTo(targetGen, mem);
      state := Active;
      consecutiveFailures := 0;
      domCapMask := originalCapMask;
    }

    /** One visit of a cascade: a rollback attempt and, when it is granted, the rollback. */
    method AttemptRollback(mem: Memory, tick: nat, fp: nat, depth: nat) returns (ok: bool, entries: nat)
      requires Valid() && InMemory(View().log.es, mem.bytes)
      modifies this, undo`count, undo`currentGeneration, undo.entries, mem
      ensures Valid() && View() == Attempt(old(View()), tick, fp, depth)
      ensures ok == TryOk(old(View()).guard, tick, fp)
      ensures entries == if ok then Entries(old(View()), depth) else 0
      ensures Loaded(old(View()), |old(mem.bytes)|)
      ensures mem.bytes == AttemptMemory(old(View()), tick, fp, depth, old(mem.bytes))
      ensures InMemory(View().log.es, mem.bytes) && |mem.bytes| == |old(mem.bytes)|
    {
      hide InMemory, WellFormedDom, TryOk, Try, Heal, RollbackMemory, Inv, Loaded, Keep;
      LoadedDom(View(), mem.bytes);
      ok := TryRollback(tick, fp);
      entries := 0;
      if ok {
        entries := Rollback(mem, depth);
      }
    }

    // ----- the periodic tick

    method CheckHealth(tick: nat) returns (ok: bool)
      requires Valid()
      modifies this`lastHeartbeat
      ensures Valid() && ok == Healthy(old(View()).upkeep, tick)
      ensures View() == old(View()).(upkeep := Armed(old(View()).upkeep, tick))
    {
      hide Inv;
      if heartbeatMaxGap == 0 {
        return true;
      }
      if lastHeartbeat == 0 {
        lastHeartbeat := tick;
        return true;
      }
      var gap := SatSub(tick, lastHeartbeat);
      ok := gap <= heartbeatMaxGap;
    }

    /** The barrier part of the tick. */
    method BarrierTick(tick: nat)
      requires Valid() && barrierGeneration + 1 < U64_LIMIT
      modifies this
      ensures Valid() && View() == TakeBarrier(old(View()), tick)
    {
      hide Inv, PushSnapshot;
      if (state == Active || state == Degraded) && tick >= nextBarrierTick {
        barrierGeneration := barrierGeneration + 1;
        nextBarrierTick := tick + barrierInterval;
        PushBarrierSnapshot(tick);
      }
    }

    method ResetQuotaAt(tick: nat)
      requires Valid()
      modifies this`quotaConsumed
      ensures Valid() && View() == old(View()).(upkeep := ResetQuota(old(View()).upkeep, tick))
    {
      hide Inv;
      if quotaPeriod > 0 && tick % quotaPeriod == 0 {
        quotaConsumed := 0;
      }
    }

    /** The loop body of the manager's tick for one domain. */
    method TickOnce(tick: nat, mem: Memory) returns (escalate: bool)
      requires Valid() && barrierGeneration + 1 < U64_LIMIT && InMemory(View().log.es, mem.bytes)
      modifies this, undo`count, undo`currentGeneration, undo.entries, mem
      ensures Valid() && View() == Tick(old(View()), tick)
      ensures escalate == Escalates(old(View()), tick)
      ensures Loaded(old(View()), |old(mem.bytes)|) && mem.bytes == TickMemory(old(View()), tick, old(mem.bytes))
      ensures InMemory(View().log.es, mem.bytes) && |mem.bytes| == |old(mem.bytes)|
    {
      hide Inv, TakeBarrier, Try, RolledBack, RollbackMemory, ResetQuota, InMemory, Entries, TargetGeneration, Loaded;
      LoadedDom(View(), mem.bytes);
      BarrierTick(tick);
      var healthy := CheckHealth(tick);
      if !healthy {
        consecutiveFailures := consecutiveFailures + 1;
        var failures := consecutiveFailures;
        if failures <= 2 {
          var ok := TryRollback(tick, 0);
          if ok {
            var _ := Rollback(mem, 0);
            MarkAsRecovered();
            consecutiveFailures := 0;
            return false;
          }
        }
        if failures >= 3 {
          return true;
        }
      }
      ResetQuotaAt(tick);
      escalate := false;
    }

    // ----- crash fingerprints

    /** The loop body of check_boot_fingerprints for one domain. */
    method CheckBootFingerprint()
      requires Valid()
      modifies this`state, this`lastCrashFingerprint
      ensures Valid() && View() == DomainSpec.Step(old(View()), BootOp)
    {
      hide Inv, TryDom, Attempt, Tick, RecordField, DomainSpec.Heartbeat, Persist;
      if lastCrashFingerprint != 0 && consecutiveFailures >= 3 {
        state := Degraded;
        lastCrashFingerprint := 0;
      }
    }

    method PersistCrashFingerprint(fp: nat)
      requires Valid()
      modifies this`lastCrashFingerprint
      ensures Valid() && View() == DomainSpec.Step(old(View()), PersistOp(fp))
    {
      hide Inv, TryDom, Attempt, Tick, RecordField, DomainSpec.Heartbeat, CheckBoot;
      if fp != 0 {
        lastCrashFingerprint := fp;
      }
    }

    // ----- recording and heartbeats

    /**
      The undo record of a recoverable lock (`sync`) or of a plain call; false where the log has no room for it and
      the kernel panics.
    */
    method RecordUndo(sync: bool, ptr: nat, value: seq<Byte>) returns (ok: bool)
      requires Valid()
      modifies undo`count, undo`currentGeneration, undo.entries
      ensures Valid() && View() == DomainSpec.Step(old(View()), RecordOp(sync, ptr, value))
      ensures ok <==> HasRoom(old(View()).log.es, View().log.gen, ptr)
    {
      hide Inv, HasRoom, Recording;
      RecordWellFormed(View(), sync, ptr, value);
      if sync {
        WiderGeneration(View().log.es, View().log.gen, barrierGeneration);
        undo.currentGeneration := barrierGeneration;
      }
      ok := undo.Record(ptr, value);
    }

    method HeartbeatAt(tick: nat)
      requires Valid()
      modifies this`lastHeartbeat
      ensures Valid() && View() == DomainSpec.Step(old(View()), HeartbeatOp(tick))
    {
      hide Inv, TryDom, Attempt, Tick, RecordField, CheckBoot, Persist;
      lastHeartbeat := tick;
    }

    // ----- dependencies

    /** add_depended_by: true unless the id is new and all eight slots are taken. */
    method AddDependedBy(dependent: nat) returns (ok: bool)
      requires Valid()
      modifies this`dependedBy
      ensures Valid() && View() == DomainSpec.Step(old(View()), DependedByOp(dependent))
      ensures ok <==> Some(dependent) in dependedBy
    {
      hide Inv, TryDom, Attempt, Tick, RecordField, DomainSpec.Heartbeat, CheckBoot, Persist;
      var slot := FindSlot(dependedBy, dependent);
      if slot < |dependedBy| {
        dependedBy := dependedBy[slot := Some(dependent)];
        assert dependedBy[slot] == Some(dependent);
        ok := true;
      } else {
        ok := false;
      }
    }

    /** add_dependency: reports success even when the slots are full and nothing is stored. */
    method AddDependency(dependency: nat) returns (ok: bool)
      requires Valid()
      modifies this`dependsOn
      ensures Valid() && View() == DomainSpec.Step(old(View()), DependsOnOp(dependency))
      ensures ok
    {
      hide Inv, TryDom, Attempt, Tick, RecordField, DomainSpec.Heartbeat, CheckBoot, Persist;
      var slot := FindSlot(dependsOn, dependency);
      if slot < |dependsOn| {
        dependsOn := dependsOn[slot := Some(dependency)];
      }
      ok := true;
    }
  }

  /** The two scans of add_depended_by and add_dependency. */
  method FindSlot(slots: seq<Option<nat>>, id: nat) returns (k: nat)
    ensures k == SlotFor(slots, id)
  {
    k := 0;
    while k < |slots|
      invariant k <= |slots|
      invariant forall j :: 0 <= j < k ==> slots[j] != Some(id)
    {
      if slots[k] == Some(id) {
        FirstIndexUnique(slots, Some(id), k);
        return;
      }
      k := k + 1;
    }
    k := 0;
    while k < |slots|
      invariant k <= |slots|
      invariant forall j :: 0 <= j < k ==> slots[j] != None
    {
      if slots[k] == None {
        FirstIndexUnique(slots, None, k);
        return;
      }
      k := k + 1;
    }
  }

  lemma LoadedDom(d: Dom, m: seq<Byte>)
    requires WellFormedDom(d) && InMemory(d.log.es, m)
    ensures Loaded(d, |m|)
  {
  }

  /** What is left of a log still points into memory. */
  lemma RolledBackInMemory(es: seq<UndoEntry>, t: nat, m: seq<Byte>)
    requires InMemory(es, m)
    ensures InMemory(RolledBack(es, t), m)
  {
    hide Keep, CutAt;
  }
}
