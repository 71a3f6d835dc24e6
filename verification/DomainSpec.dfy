/** One recovery domain as a value: rollback attempts with backoff and quarantine, barriers, health checks. */
module DomainSpec {
  import opened Bits
  import opened Results
  import opened Sequences
  import opened UndoSpec

  const MAX_CONSECUTIVE_FAILURES: nat := 5
  const BACKOFF_BASE_TICKS: nat := 100
  const MAX_BARRIER_SNAPSHOTS: nat := 8
  const MAX_DOMAIN_DEPENDENCIES: nat := 8
  const DEFAULT_BARRIER_INTERVAL: nat := 100

  /** A capability mask as the set of its one bits. */
  type CapMask = set<nat>

  const CAP_FS_WRITE: nat := 0
  const CAP_NET_SEND: nat := 1
  const CAP_PROC_CREATE: nat := 2

  datatype DomainState = Active | Freezing | RollingBack | Recovering | Degraded | Quarantined

  datatype Snapshot = Snapshot(generation: nat, tick: nat, undoOffset: nat)

  /** The fields that decide whether a rollback is granted, and what it costs. */
  datatype Guard = Guard(
    state: DomainState,
    failures: nat,
    lastFingerprint: nat,
    rollbackCount: nat,
    lastRollback: nat,
    backoffUntil: nat,
    caps: CapMask,
    originalCaps: CapMask)

  /** Barrier generations and the ring of the last eight barriers. */
  datatype Barriers = Barriers(generation: nat, interval: nat, next: nat, ring: seq<Snapshot>, top: nat)

  datatype Upkeep = Upkeep(lastHeartbeat: nat, heartbeatMaxGap: nat, quotaPeriod: nat, quotaConsumed: nat)

  datatype Dom = Dom(
    guard: Guard,
    barriers: Barriers,
    upkeep: Upkeep,
    dependsOn: seq<Option<nat>>,
    dependedBy: seq<Option<nat>>,
    log: Log)

  ghost predicate WellFormedDom(d: Dom) {
    && |d.barriers.ring| == MAX_BARRIER_SNAPSHOTS
    && |d.dependsOn| == |d.dependedBy| == MAX_DOMAIN_DEPENDENCIES
    && d.log.gen <= d.barriers.generation < U64_LIMIT
    && Inv(d.log.es, d.log.gen)
  }

  /** The mask with the lowest n bits set. */
  function BitsBelow(n: nat): CapMask {
    if n == 0 then {} else BitsBelow(n - 1) + {n - 1}
  }

  /** A new domain: active, with all rights, no barrier, no dependency and an empty log. */
  function FreshDom(): Dom {
    Dom(
      Guard(Active, 0, 0, 0, 0, 0, BitsBelow(64), BitsBelow(64)),
      Barriers(0, DEFAULT_BARRIER_INTERVAL, DEFAULT_BARRIER_INTERVAL,
               seq(MAX_BARRIER_SNAPSHOTS, _ => Snapshot(0, 0, 0)), 0),
      Upkeep(0, 0, 0, 0),
      seq(MAX_DOMAIN_DEPENDENCIES, _ => None),
      seq(MAX_DOMAIN_DEPENDENCIES, _ => None),
      Log([], 0))
  }

  // ----- try_rollback

  function Backoff(failures: nat): nat {
    Pow2(Min(failures, 8)) * BACKOFF_BASE_TICKS
  }

  /** The wait after a rollback granted at 0, 1, 2, 3 or 4 failures. */
  const GAP_TICKS: seq<nat> := [100, 200, 400, 800, 1600]

  lemma BackoffIs(f: nat)
    ensures f < 5 ==> Backoff(f) == GAP_TICKS[f]
    ensures Backoff(5) == 3200 && Backoff(6) == 6400 && Backoff(7) == 12800 && (f >= 8 ==> Backoff(f) == 25600)
  {
    assert Pow2(1) == 2 && Pow2(2) == 4 && Pow2(3) == 8 && Pow2(4) == 16 && Pow2(5) == 32;
    assert Pow2(6) == 64 && Pow2(7) == 128 && Pow2(8) == 256;
  }

  /** apply_degradation: the ladder from full rights through reduced rights to quarantine. */
  function Degrade(g: Guard): Guard {
    if 1 <= g.failures <= 2 then g.(caps := g.originalCaps)
    else if g.failures == 3 then g.(caps := g.originalCaps - {CAP_FS_WRITE}, state := Degraded)
    else if g.failures == 4 then
      g.(caps := g.originalCaps - {CAP_FS_WRITE, CAP_NET_SEND, CAP_PROC_CREATE}, state := Degraded)
    else g.(state := Quarantined)
  }

  predicate TryOk(g: Guard, tick: nat, fp: nat) {
    && g.failures < MAX_CONSECUTIVE_FAILURES
    && !(fp != 0 && g.lastFingerprint == fp)
    && tick >= g.backoffUntil
  }

  /** The guard after a rollback attempt; TryOk says whether the attempt is granted. */
  function Try(g: Guard, tick: nat, fp: nat): Guard {
    if g.failures >= MAX_CONSECUTIVE_FAILURES then g.(state := Quarantined)
    else if fp != 0 && g.lastFingerprint == fp then
      g.(lastFingerprint := fp, failures := MAX_CONSECUTIVE_FAILURES, state := Quarantined)
    else if tick < g.backoffUntil then g.(lastFingerprint := fp)
    else Degrade(g.(lastFingerprint := fp,
                    backoffUntil := tick + Backoff(g.failures),
                    failures := g.failures + 1,
                    rollbackCount := g.rollbackCount + 1,
                    lastRollback := tick))
  }

  function MarkRecovered(g: Guard): Guard {
    g.(failures := 0, caps := g.originalCaps)
  }

  // ----- barriers

  function PushSnapshot(b: Barriers, tick: nat, undoCount: nat): Barriers
    requires |b.ring| == MAX_BARRIER_SNAPSHOTS
  {
    b.(ring := b.ring[b.top % MAX_BARRIER_SNAPSHOTS := Snapshot(b.generation, tick, undoCount)], top := b.top + 1)
  }

  function SatSub(a: nat, b: nat): nat {
    if a >= b then a - b else 0
  }

  /** get_rollback_generation: the generation of the barrier `levels` steps back, read from the ring. */
  function RollbackGeneration(b: Barriers, levels: nat): nat
    requires |b.ring| == MAX_BARRIER_SNAPSHOTS
  {
    if b.top == 0 then 0
    else b.ring[SatSub(SatSub(b.top, levels), 1) % MAX_BARRIER_SNAPSHOTS].generation
  }

  function TargetGeneration(b: Barriers, depth: nat): nat
    requires |b.ring| == MAX_BARRIER_SNAPSHOTS
  {
    if depth > 0 then RollbackGeneration(b, depth) else b.generation
  }

  predicate BarrierDue(d: Dom, tick: nat) {
    (d.guard.state == Active || d.guard.state == Degraded) && tick >= d.barriers.next
  }

  function TakeBarrier(d: Dom, tick: nat): (r: Dom)
    requires |d.barriers.ring| == MAX_BARRIER_SNAPSHOTS
    ensures |r.barriers.ring| == MAX_BARRIER_SNAPSHOTS
    ensures r == d.(barriers := r.barriers)
  {
    if BarrierDue(d, tick) then
      var b := d.barriers.(generation := d.barriers.generation + 1, next := tick + d.barriers.interval);
      d.(barriers := PushSnapshot(b, tick, |d.log.es|))
    else d
  }

  // ----- rollback_domain

  /** The domain after rollback_domain: its log rolled back, active again, its failures forgotten. */
  function Heal(d: Dom, depth: nat): Dom
    requires |d.barriers.ring| == MAX_BARRIER_SNAPSHOTS
  {
    d.(log := Log(RolledBack(d.log.es, TargetGeneration(d.barriers, depth)), d.barriers.generation),
       guard := MarkRecovered(d.guard.(state := Active)))
  }

  /** How many undo entries rollback_domain pops. */
  function Entries(d: Dom, depth: nat): nat
    requires |d.barriers.ring| == MAX_BARRIER_SNAPSHOTS
  {
    |d.log.es| - Keep(d.log.es, TargetGeneration(d.barriers, depth))
  }

  function TryDom(d: Dom, tick: nat, fp: nat): Dom {
    d.(guard := Try(d.guard, tick, fp))
  }

  /** One visit of the cascade to a domain: a rollback attempt and, when granted, the rollback. */
  function Attempt(d: Dom, tick: nat, fp: nat, depth: nat): Dom
    requires |d.barriers.ring| == MAX_BARRIER_SNAPSHOTS
  {
    if TryOk(d.guard, tick, fp) then Heal(TryDom(d, tick, fp), depth) else TryDom(d, tick, fp)
  }

  /** Does the visit roll back any undo entry? */
  predicate Counts(d: Dom, tick: nat, fp: nat, depth: nat)
    requires |d.barriers.ring| == MAX_BARRIER_SNAPSHOTS
  {
    TryOk(d.guard, tick, fp) && Entries(d, depth) > 0
  }

  // ----- the periodic tick

  predicate Healthy(u: Upkeep, tick: nat) {
    u.heartbeatMaxGap == 0 || u.lastHeartbeat == 0 || SatSub(tick, u.lastHeartbeat) <= u.heartbeatMaxGap
  }

  /** check_health arms the first heartbeat. */
  function Armed(u: Upkeep, tick: nat): Upkeep {
    if u.heartbeatMaxGap != 0 && u.lastHeartbeat == 0 then u.(lastHeartbeat := tick) else u
  }

  function ResetQuota(u: Upkeep, tick: nat): Upkeep {
    if u.quotaPeriod > 0 && tick % u.quotaPeriod == 0 then u.(quotaConsumed := 0) else u
  }

  function Missed(g: Guard): Guard {
    g.(failures := g.failures + 1)
  }

  /** The tick asks for a system reset when a domain misses its heartbeat with three or more failures. */
  predicate Escalates(d: Dom, tick: nat) {
    !Healthy(d.upkeep, tick) && d.guard.failures + 1 >= 3
  }

  function Tick(d: Dom, tick: nat): Dom
    requires |d.barriers.ring| == MAX_BARRIER_SNAPSHOTS
  {
    var b := TakeBarrier(d, tick);
    if Healthy(d.upkeep, tick) then b.(upkeep := ResetQuota(Armed(d.upkeep, tick), tick))
    else
      var missed := b.(guard := Missed(d.guard));
      if missed.guard.failures <= 2 then
        if TryOk(missed.guard, tick, 0) then Heal(TryDom(missed, tick, 0), 0)
        else TryDom(missed, tick, 0).(upkeep := ResetQuota(d.upkeep, tick))
      else missed
  }

  // ----- the effect on memory

  /** The log points into a memory of this size. */
  ghost predicate Loaded(d: Dom, size: nat) {
    |d.barriers.ring| == MAX_BARRIER_SNAPSHOTS && Fits(d.log.es, size) && AllWellFormed(d.log.es)
  }

  /** Memory after rollback_domain. */
  ghost function HealMemory(d: Dom, depth: nat, m: seq<Byte>): (m': seq<Byte>)
    requires Loaded(d, |m|)
    ensures |m'| == |m|
  {
    RollbackMemory(d.log.es, TargetGeneration(d.barriers, depth), m)
  }

  /** Memory after one visit of the cascade. */
  ghost function AttemptMemory(d: Dom, tick: nat, fp: nat, depth: nat, m: seq<Byte>): (m': seq<Byte>)
    requires Loaded(d, |m|)
    ensures |m'| == |m|
  {
    if TryOk(d.guard, tick, fp) then HealMemory(d, depth, m) else m
  }

  /** Does the tick roll the domain back? */
  predicate TickRollsBack(d: Dom, tick: nat) {
    !Healthy(d.upkeep, tick) && Missed(d.guard).failures <= 2 && TryOk(Missed(d.guard), tick, 0)
  }

  /** Memory after one domain's share of the tick. */
  ghost function TickMemory(d: Dom, tick: nat, m: seq<Byte>): (m': seq<Byte>)
    requires Loaded(d, |m|)
    ensures |m'| == |m|
  {
    if TickRollsBack(d, tick) then HealMemory(TakeBarrier(d, tick), 0, m) else m
  }

  /** A rollback at depth 0 pops something exactly when something was recorded since the last barrier. */
  lemma PopsSinceBarrier(d: Dom)
    requires WellFormedDom(d)
    ensures Entries(d, 0) > 0 <==> exists i :: 0 <= i < |d.log.es| && d.log.es[i].generation == d.barriers.generation
  {
    var es, n := d.log.es, Keep(d.log.es, d.barriers.generation);
    hide Keep;
    if n < |es| {
      assert es[n].generation == d.barriers.generation;
    } else {
      forall i | 0 <= i < |es|
        ensures es[i].generation < d.barriers.generation
      {
        KeepIsExact(es, d.barriers.generation, i);
      }
    }
  }

  /** The tick takes its barrier first, so a rollback in the same tick finds nothing to undo. */
  lemma BarrierHidesRecords(d: Dom, tick: nat, m: seq<Byte>)
    requires WellFormedDom(d) && InMemory(d.log.es, m) && BarrierDue(d, tick) && d.barriers.generation + 1 < U64_LIMIT
    ensures Entries(TakeBarrier(d, tick), 0) == 0 && TickMemory(d, tick, m) == m
  {
    hide Undo;
    PopsSinceBarrier(TakeBarrier(d, tick));
    var es := d.log.es;
    assert es[|es|..] == [];
    UndoNothing(m);
  }

  lemma UndoNothing(m: seq<Byte>)
    ensures InMemory([], m) && AllWellFormed([]) && Undo([], m) == m
  {
  }

  // ----- boot check and recording

  function CheckBoot(g: Guard): Guard {
    if g.lastFingerprint != 0 && g.failures >= 3 then g.(state := Degraded, lastFingerprint := 0) else g
  }

  function Persist(g: Guard, fp: nat): Guard {
    if fp == 0 then g else g.(lastFingerprint := fp)
  }

  /**
    Recording a field. Recoverable locks first bring the log to the domain's generation; the plain call does not.
    Without room the kernel panics and the entries stay as they are.
  */
  ghost function RecordField(d: Dom, sync: bool, ptr: nat, value: seq<Byte>): Dom {
    var gen := if sync then d.barriers.generation else d.log.gen;
    var es := if HasRoom(d.log.es, gen, ptr) then Recording(d.log.es, gen, ptr, value) else d.log.es;
    d.(log := Log(es, gen))
  }

  function Heartbeat(d: Dom, tick: nat): Dom {
    d.(upkeep := d.upkeep.(lastHeartbeat := tick))
  }

  // ----- dependency slots

  /** The slot an id goes to: its own if it is stored already, else the first empty one, else none. */
  function SlotFor(slots: seq<Option<nat>>, id: nat): (k: nat)
    ensures k <= |slots|
    ensures k < |slots| ==> slots[k] == Some(id) || (slots[k] == None && Some(id) !in slots)
    ensures k == |slots| ==> Some(id) !in slots && None !in slots
  {
    if Some(id) in slots then FirstIndex(slots, Some(id)) else FirstIndex(slots, None)
  }

  function AddedSlot(slots: seq<Option<nat>>, id: nat): seq<Option<nat>> {
    var k := SlotFor(slots, id);
    if k < |slots| then slots[k := Some(id)] else slots
  }

  /** The id is stored afterwards exactly when it was stored before or a slot was empty; nothing else is lost. */
  lemma AddedSlotHolds(slots: seq<Option<nat>>, id: nat)
    ensures Some(id) in AddedSlot(slots, id) <==> Some(id) in slots || None in slots
    ensures forall x: nat :: x != id ==> (Some(x) in AddedSlot(slots, id) <==> Some(x) in slots)
  {
    var k, after := SlotFor(slots, id), AddedSlot(slots, id);
    if k < |slots| {
      assert after[k] == Some(id);
      forall x: nat | x != id
        ensures Some(x) in after <==> Some(x) in slots
      {
        if j :| 0 <= j < |slots| && slots[j] == Some(x) {
          assert after[j] == Some(x);
        }
      }
    }
  }

  // ----- every operation keeps the domain well formed

  lemma WiderGeneration(es: seq<UndoEntry>, gen: nat, gen': nat)
    requires Inv(es, gen) && gen <= gen'
    ensures Inv(es, gen')
  {
  }

  lemma HealWellFormed(d: Dom, depth: nat)
    requires WellFormedDom(d)
    ensures WellFormedDom(Heal(d, depth))
  {
    hide Inv, RolledBack;
    WiderGeneration(d.log.es, d.log.gen, d.barriers.generation);
    RolledBackInv(d.log.es, d.barriers.generation, TargetGeneration(d.barriers, depth));
  }

  lemma AttemptWellFormed(d: Dom, tick: nat, fp: nat, depth: nat)
    requires WellFormedDom(d)
    ensures WellFormedDom(Attempt(d, tick, fp, depth))
    ensures Attempt(d, tick, fp, depth).dependedBy == d.dependedBy
  {
    hide Inv, RolledBack, Try;
    HealWellFormed(TryDom(d, tick, fp), depth);
  }

  lemma TickWellFormed(d: Dom, tick: nat)
    requires WellFormedDom(d) && d.barriers.generation + 1 < U64_LIMIT
    ensures WellFormedDom(Tick(d, tick)) && Tick(d, tick).dependedBy == d.dependedBy
  {
    hide Inv, RolledBack, Try;
    var missed := TakeBarrier(d, tick).(guard := Missed(d.guard));
    HealWellFormed(TryDom(missed, tick, 0), 0);
  }

  lemma RecordWellFormed(d: Dom, sync: bool, ptr: nat, value: seq<Byte>)
    requires WellFormedDom(d)
    ensures WellFormedDom(RecordField(d, sync, ptr, value))
  {
    hide Inv, Recording, HasRoom;
    var gen := if sync then d.barriers.generation else d.log.gen;
    WiderGeneration(d.log.es, d.log.gen, gen);
    if HasRoom(d.log.es, gen, ptr) {
      RecordingInv(d.log.es, gen, ptr, value);
    }
  }

  // ----- runs of one domain

  datatype DomOp =
    | TryOp(tick: nat, fp: nat)
    | AttemptOp(tick: nat, fp: nat, depth: nat)
    | TickOp(tick: nat)
    | BootOp
    | PersistOp(fp: nat)
    | RecordOp(sync: bool, ptr: nat, value: seq<Byte>)
    | HeartbeatOp(tick: nat)
    | DependsOnOp(dependency: nat)
    | DependedByOp(dependent: nat)

  ghost function Step(d: Dom, op: DomOp): (r: Dom)
    requires |d.barriers.ring| == MAX_BARRIER_SNAPSHOTS
    ensures |r.barriers.ring| == MAX_BARRIER_SNAPSHOTS
  {
    match op
    case TryOp(tick, fp) => TryDom(d, tick, fp)
    case AttemptOp(tick, fp, depth) => Attempt(d, tick, fp, depth)
    case TickOp(tick) => Tick(d, tick)
    case BootOp => d.(guard := CheckBoot(d.guard))
    case PersistOp(fp) => d.(guard := Persist(d.guard, fp))
    case RecordOp(sync, ptr, value) => RecordField(d, sync, ptr, value)
    case HeartbeatOp(tick) => Heartbeat(d, tick)
    case DependsOnOp(x) => d.(dependsOn := AddedSlot(d.dependsOn, x))
    case DependedByOp(x) => d.(dependedBy := AddedSlot(d.dependedBy, x))
  }

  ghost function Run(d: Dom, ops: seq<DomOp>): (r: Dom)
    requires |d.barriers.ring| == MAX_BARRIER_SNAPSHOTS
    ensures |r.barriers.ring| == MAX_BARRIER_SNAPSHOTS
  {
    if ops == [] then d else Step(Run(d, ops[..|ops| - 1]), ops[|ops| - 1])
  }

  /** Records and changes of generation only. */
  ghost predicate RecordsOnly(ops: seq<LogOp>) {
    forall i :: 0 <= i < |ops| ==> ops[i].Record? || ops[i].SetGeneration?
  }

  /** The log went from a to b by recording: no entry was popped. */
  ghost predicate NothingPopped(a: Log, b: Log) {
    exists ops :: RecordsOnly(ops) && b == LogRun(a, ops)
  }

  lemma SameLogNothingPopped(a: Log)
    ensures NothingPopped(a, a)
  {
    assert RecordsOnly([]) && a == LogRun(a, []);
  }

  lemma NothingPoppedStep(a: Log, b: Log, op: LogOp)
    requires NothingPopped(a, b) && (op.Record? || op.SetGeneration?)
    ensures NothingPopped(a, LogStep(b, op))
  {
    hide LogStep;
    var ops :| RecordsOnly(ops) && b == LogRun(a, ops);
    assert (ops + [op])[..|ops|] == ops;
    assert RecordsOnly(ops + [op]) && LogStep(b, op) == LogRun(a, ops + [op]);
  }

  /** A domain over the failure limit is never rolled back again and never forgiven, whatever its label. */
  ghost predicate StaysOut(a: Dom, b: Dom) {
    a.guard.failures >= MAX_CONSECUTIVE_FAILURES ==>
      && b.guard.failures >= a.guard.failures
      && b.guard.rollbackCount == a.guard.rollbackCount && b.guard.lastRollback == a.guard.lastRollback
      && NothingPopped(a.log, b.log)
  }

  /** On a domain that is out an operation records or leaves the log alone. */
  lemma OutKeepsLog(d: Dom, op: DomOp, a: Log)
    requires |d.barriers.ring| == MAX_BARRIER_SNAPSHOTS && d.guard.failures >= MAX_CONSECUTIVE_FAILURES
    requires NothingPopped(a, d.log)
    ensures NothingPopped(a, Step(d, op).log)
  {
    hide Heal, Degrade, PushSnapshot, NothingPopped, HasRoom, Recording;
    match op
    case RecordOp(sync, ptr, value) =>
      var gen := if sync then d.barriers.generation else d.log.gen;
      NothingPoppedStep(a, d.log, SetGeneration(gen));
      NothingPoppedStep(a, Log(d.log.es, gen), Record(ptr, value));
    case _ =>
      assert Step(d, op).log == d.log;
  }

  lemma StepStaysOut(d: Dom, op: DomOp)
    requires |d.barriers.ring| == MAX_BARRIER_SNAPSHOTS
    ensures StaysOut(d, Step(d, op))
  {
    hide Heal, Degrade, PushSnapshot, NothingPopped, HasRoom, Recording;
    SameLogNothingPopped(d.log);
    if d.guard.failures >= MAX_CONSECUTIVE_FAILURES {
      OutKeepsLog(d, op, d.log);
    }
  }

  lemma {:induction false} QuarantineIsFinal(d: Dom, ops: seq<DomOp>)
    requires |d.barriers.ring| == MAX_BARRIER_SNAPSHOTS
    ensures StaysOut(d, Run(d, ops))
    decreases |ops|
  {
    hide Step, NothingPopped;
    if ops == [] {
      SameLogNothingPopped(d.log);
    } else {
      var s, op := Run(d, ops[..|ops| - 1]), ops[|ops| - 1];
      QuarantineIsFinal(d, ops[..|ops| - 1]);
      StepStaysOut(s, op);
      if d.guard.failures >= MAX_CONSECUTIVE_FAILURES {
        OutKeepsLog(s, op, d.log);
      }
    }
  }

  // ----- backoff over runs

  /** The guard and tick of the rollback attempt an operation makes. */
  function Tries(d: Dom, op: DomOp): Option<(Guard, nat, nat)> {
    match op
    case TryOp(tick, fp) => Some((d.guard, tick, fp))
    case AttemptOp(tick, fp, _) => Some((d.guard, tick, fp))
    case TickOp(tick) =>
      if !Healthy(d.upkeep, tick) && Missed(d.guard).failures <= 2 then Some((Missed(d.guard), tick, 0)) else None
    case _ => None
  }

  predicate Granted(d: Dom, op: DomOp) {
    match Tries(d, op)
    case Some((g, tick, fp)) => TryOk(g, tick, fp)
    case None => false
  }

  /** A granted rollback waits for the backoff and sets the next one; nothing else touches either. */
  lemma GrantSetsBackoff(d: Dom, op: DomOp)
    requires |d.barriers.ring| == MAX_BARRIER_SNAPSHOTS
    ensures !Granted(d, op) ==>
      var g := Step(d, op).guard;
      && g.backoffUntil == d.guard.backoffUntil
      && g.rollbackCount == d.guard.rollbackCount && g.lastRollback == d.guard.lastRollback
    ensures Granted(d, op) ==>
      var (before, tick, _) := Tries(d, op).value;
      var g := Step(d, op).guard;
      && tick >= d.guard.backoffUntil
      && g.backoffUntil == tick + Backoff(before.failures)
      && g.rollbackCount == d.guard.rollbackCount + 1 && g.lastRollback == tick
  {
    hide RolledBack, PushSnapshot, Backoff;
  }

  lemma BackoffAtLeastBase(f: nat)
    ensures Backoff(f) >= BACKOFF_BASE_TICKS
  {
  }

  lemma {:induction false} BackoffMonotone(d: Dom, ops: seq<DomOp>, i: nat)
    requires |d.barriers.ring| == MAX_BARRIER_SNAPSHOTS && i <= |ops|
    ensures Run(d, ops[..i]).guard.backoffUntil <= Run(d, ops).guard.backoffUntil
    decreases |ops|
  {
    hide Step, Tries, Backoff;
    if i < |ops| {
      var front := ops[..|ops| - 1];
      assert front[..i] == ops[..i];
      BackoffMonotone(d, front, i);
      GrantSetsBackoff(Run(d, front), ops[|ops| - 1]);
    } else {
      assert ops[..i] == ops;
    }
  }

  /** After a rollback granted at f failures the next one comes at least 100, 200, 400, 800 or 1600 ticks later. */
  lemma GapAfterGrant(d: Dom, ops: seq<DomOp>, i: nat, j: nat)
    requires |d.barriers.ring| == MAX_BARRIER_SNAPSHOTS && i < j < |ops|
    requires Granted(Run(d, ops[..i]), ops[i]) && Granted(Run(d, ops[..j]), ops[j])
    ensures var (before, tick, _) := Tries(Run(d, ops[..i]), ops[i]).value;
      before.failures < 5 && Tries(Run(d, ops[..j]), ops[j]).value.1 >= tick + GAP_TICKS[before.failures]
  {
    hide Run, Step, Tries, Backoff;
    RunSnoc(d, ops, i);
    BackoffIs(Tries(Run(d, ops[..i]), ops[i]).value.0.failures);
    GrantSetsBackoff(Run(d, ops[..i]), ops[i]);
    assert ops[..j][..i + 1] == ops[..i + 1];
    BackoffMonotone(d, ops[..j], i + 1);
    GrantSetsBackoff(Run(d, ops[..j]), ops[j]);
  }

  lemma RunSnoc(d: Dom, ops: seq<DomOp>, i: nat)
    requires |d.barriers.ring| == MAX_BARRIER_SNAPSHOTS && i < |ops|
    ensures Run(d, ops[..i + 1]) == Step(Run(d, ops[..i]), ops[i])
  {
    hide Step;
    assert ops[..i + 1][..i] == ops[..i];
  }

  /** From the last rollback of g to that of g', each further rollback took at least the base backoff of 100 ticks. */
  ghost predicate Spaced(g: Guard, g': Guard) {
    && g'.rollbackCount >= g.rollbackCount
    && g'.lastRollback >= g.lastRollback + BACKOFF_BASE_TICKS * (g'.rollbackCount - g.rollbackCount)
  }

  /** From a state just after a granted rollback, k more rollbacks take at least 100 * k ticks. */
  lemma {:induction false} RollbacksTakeTime(d: Dom, ops: seq<DomOp>)
    requires |d.barriers.ring| == MAX_BARRIER_SNAPSHOTS
    requires d.guard.backoffUntil >= d.guard.lastRollback + BACKOFF_BASE_TICKS
    ensures var g := Run(d, ops).guard;
      Spaced(d.guard, g) && g.backoffUntil >= g.lastRollback + BACKOFF_BASE_TICKS
    decreases |ops|
  {
    hide Step, Backoff;
    if ops != [] {
      var s, op := Run(d, ops[..|ops| - 1]), ops[|ops| - 1];
      RollbacksTakeTime(d, ops[..|ops| - 1]);
      GrantSetsBackoff(s, op);
      if Granted(s, op) {
        BackoffAtLeastBase(Tries(s, op).value.0.failures);
      }
    }
  }

  lemma {:induction false} RunConcat(d: Dom, a: seq<DomOp>, b: seq<DomOp>)
    requires |d.barriers.ring| == MAX_BARRIER_SNAPSHOTS
    ensures Run(d, a + b) == Run(Run(d, a), b)
    decreases |b|
  {
    hide Step;
    if b == [] {
      assert a + b == a;
    } else {
      var front := b[..|b| - 1];
      assert (a + b)[..|a + b| - 1] == a + front;
      RunConcat(d, a, front);
    }
  }

  /** k successful rollbacks, counted from any one of them, span at least 100 * (k - 1) ticks. */
  lemma RollbacksSpan(d: Dom, ops: seq<DomOp>, i: nat)
    requires |d.barriers.ring| == MAX_BARRIER_SNAPSHOTS && i < |ops| && Granted(Run(d, ops[..i]), ops[i])
    ensures var first, last := Run(d, ops[..i + 1]).guard, Run(d, ops).guard;
      && first.lastRollback == Tries(Run(d, ops[..i]), ops[i]).value.1
      && Spaced(first, last)
  {
    hide Run, Step, Tries, Granted, Spaced;
    RunSnoc(d, ops, i);
    AfterGrant(Run(d, ops[..i]), ops[i]);
    RollbacksTakeTime(Run(d, ops[..i + 1]), ops[i + 1..]);
    RunSplit(d, ops, i + 1);
  }

  lemma RunSplit(d: Dom, ops: seq<DomOp>, k: nat)
    requires |d.barriers.ring| == MAX_BARRIER_SNAPSHOTS && k <= |ops|
    ensures Run(d, ops) == Run(Run(d, ops[..k]), ops[k..])
  {
    hide Run;
    assert ops == ops[..k] + ops[k..];
    RunConcat(d, ops[..k], ops[k..]);
  }

  lemma AfterGrant(d: Dom, op: DomOp)
    requires |d.barriers.ring| == MAX_BARRIER_SNAPSHOTS && Granted(d, op)
    ensures Tries(d, op).Some? && Step(d, op).guard.lastRollback == Tries(d, op).value.1
    ensures Step(d, op).guard.backoffUntil >= Step(d, op).guard.lastRollback + BACKOFF_BASE_TICKS
  {
    hide Step, Backoff, Tries;
    GrantSetsBackoff(d, op);
    BackoffAtLeastBase(Tries(d, op).value.0.failures);
  }

  // ----- the degradation ladder

  /** File writes (bit 0) go at the third failure, network sends and process creation (bits 1, 2) at the fourth. */
  lemma LadderRights(g: Guard, right: nat)
    requires 1 <= g.failures < MAX_CONSECUTIVE_FAILURES
    ensures right in Degrade(g).caps <==>
      && right in g.originalCaps
      && (right == 0 ==> g.failures < 3)
      && (right == 1 || right == 2 ==> g.failures < 4)
    ensures Degrade(g).state == (if g.failures < 3 then g.state else Degraded)
  {
  }

  /** A granted rollback forgives all failures and gives all rights back. */
  lemma GrantForgives(d: Dom, op: DomOp)
    requires |d.barriers.ring| == MAX_BARRIER_SNAPSHOTS && Granted(d, op) && !op.TryOp?
    ensures var g := Step(d, op).guard;
      g.failures == 0 && g.caps == g.originalCaps == d.guard.originalCaps && g.state == Active
  {
    hide RolledBack, PushSnapshot, Backoff;
  }

  lemma StepKeepsRights(d: Dom, op: DomOp)
    requires |d.barriers.ring| == MAX_BARRIER_SNAPSHOTS && d.guard.caps == d.guard.originalCaps && !op.TryOp?
    ensures Step(d, op).guard.caps == Step(d, op).guard.originalCaps == d.guard.originalCaps
  {
    hide RolledBack, PushSnapshot, Backoff;
  }

  /**
    Since each granted attempt is followed by the rollback that forgives it, the ladder leaves no trace: over every
    run of cascades, ticks and boot checks a domain keeps all its rights.
  */
  lemma {:induction false} RightsNeverReduced(d: Dom, ops: seq<DomOp>)
    requires |d.barriers.ring| == MAX_BARRIER_SNAPSHOTS && d.guard.caps == d.guard.originalCaps
    requires forall i :: 0 <= i < |ops| ==> !ops[i].TryOp?
    ensures Run(d, ops).guard.caps == Run(d, ops).guard.originalCaps == d.guard.originalCaps
    decreases |ops|
  {
    hide Step;
    if ops != [] {
      RightsNeverReduced(d, ops[..|ops| - 1]);
      StepKeepsRights(Run(d, ops[..|ops| - 1]), ops[|ops| - 1]);
    }
  }

  // ----- the same fingerprint twice

  /** An attempt leaves its fingerprint behind, or the domain is already out. */
  predicate Marked(g: Guard, fp: nat) {
    g.failures >= MAX_CONSECUTIVE_FAILURES || g.lastFingerprint == fp
  }

  /** Two attempts with one non-zero fingerprint quarantine the domain, even if the first was granted or backed off. */
  lemma SecondAttemptQuarantines(d: Dom, tick: nat, fp: nat, depth: nat, tick': nat, depth': nat)
    requires |d.barriers.ring| == MAX_BARRIER_SNAPSHOTS && fp != 0
    ensures var a := Attempt(d, tick, fp, depth);
      && Marked(a.guard, fp)
      && Attempt(a, tick', fp, depth').guard.state == Quarantined
      && Attempt(a, tick', fp, depth').guard.failures >= MAX_CONSECUTIVE_FAILURES
      && Attempt(a, tick', fp, depth').guard.rollbackCount == a.guard.rollbackCount
  {
    hide RolledBack, Backoff, TargetGeneration;
  }

  predicate Out(g: Guard) {
    g.failures >= MAX_CONSECUTIVE_FAILURES && g.state == Quarantined
  }

  /** What one attempt does to the marks of a crash, and when it can be granted. */
  lemma AttemptProgress(d: Dom, tick: nat, fp: nat, depth: nat)
    requires |d.barriers.ring| == MAX_BARRIER_SNAPSHOTS
    ensures var g, g' := d.guard, Attempt(d, tick, fp, depth).guard;
      && (fp != 0 ==> Marked(g', fp))
      && (fp != 0 && Marked(g, fp) ==> Out(g'))
      && (if tick >= g.backoffUntil && g'.rollbackCount != g.rollbackCount
          then g'.rollbackCount == g.rollbackCount + 1 && g'.backoffUntil > tick
          else g'.rollbackCount == g.rollbackCount && g'.backoffUntil == g.backoffUntil)
  {
    hide RolledBack, Backoff, TargetGeneration;
    BackoffAtLeastBase(d.guard.failures);
  }

  // ----- how far back the ring reaches

  /** As many barriers as generations, and the ring holds the last eight: barrier k is of generation k + 1. */
  ghost predicate InStep(b: Barriers) {
    && |b.ring| == MAX_BARRIER_SNAPSHOTS && b.top == b.generation
    && forall k: nat :: k < b.top <= k + MAX_BARRIER_SNAPSHOTS ==> RingHolds(b, k)
  }

  predicate RingHolds(b: Barriers, k: nat)
    requires |b.ring| == MAX_BARRIER_SNAPSHOTS
  {
    b.ring[k % MAX_BARRIER_SNAPSHOTS].generation == k + 1
  }

  lemma FreshInStep()
    ensures InStep(FreshDom().barriers)
  {
  }

  lemma BarrierInStep(d: Dom, tick: nat)
    requires InStep(d.barriers)
    ensures InStep(TakeBarrier(d, tick).barriers)
  {
    var b, b' := d.barriers, TakeBarrier(d, tick).barriers;
    if b' != b {
      forall k: nat | k < b'.top <= k + MAX_BARRIER_SNAPSHOTS
        ensures RingHolds(b', k)
      {
        if k < b.top {
          assert RingHolds(b, k);
          OtherSlot(k, b.top);
        }
      }
    }
  }

  lemma OtherSlot(k: nat, top: nat)
    requires k < top < k + MAX_BARRIER_SNAPSHOTS
    ensures k % MAX_BARRIER_SNAPSHOTS != top % MAX_BARRIER_SNAPSHOTS
  {
  }

  lemma StepInStep(d: Dom, op: DomOp)
    requires InStep(d.barriers)
    ensures InStep(Step(d, op).barriers)
  {
    hide InStep, TakeBarrier, RolledBack, Try;
    RingOfInStep(d.barriers);
    match op
    case TickOp(tick) => BarrierInStep(d, tick);
    case _ =>
  }

  lemma RingOfInStep(b: Barriers)
    requires InStep(b)
    ensures |b.ring| == MAX_BARRIER_SNAPSHOTS && b.top == b.generation
  {
  }

  /** Over every run the ring holds the last eight barriers. */
  lemma {:induction false} RunInStep(d: Dom, ops: seq<DomOp>)
    requires InStep(d.barriers)
    ensures |d.barriers.ring| == MAX_BARRIER_SNAPSHOTS && InStep(Run(d, ops).barriers)
    decreases |ops|
  {
    hide InStep, Step;
    RingOfInStep(d.barriers);
    if ops != [] {
      RunInStep(d, ops[..|ops| - 1]);
      StepInStep(Run(d, ops[..|ops| - 1]), ops[|ops| - 1]);
    }
  }

  /** The newest barrier k < top in the slot of barrier j. */
  lemma NewestInSlot(b: Barriers, j: nat, k: nat)
    requires InStep(b) && j <= k < b.top <= k + MAX_BARRIER_SNAPSHOTS
    requires j % MAX_BARRIER_SNAPSHOTS == k % MAX_BARRIER_SNAPSHOTS
    ensures b.ring[j % MAX_BARRIER_SNAPSHOTS].generation == k + 1
  {
    assert RingHolds(b, k);
  }

  /** Exactly which generation a rollback at each depth aims at: the ring counts depths modulo eight. */
  lemma TargetIs(b: Barriers, depth: nat)
    requires InStep(b)
    ensures depth < b.top || depth == 0 ==> TargetGeneration(b, depth) == b.generation - depth % MAX_BARRIER_SNAPSHOTS
    ensures depth >= b.top > 0 ==>
      TargetGeneration(b, depth) == (b.top - 1) / MAX_BARRIER_SNAPSHOTS * MAX_BARRIER_SNAPSHOTS + 1
  {
    if 0 < depth < b.top {
      SameSlot(b.top - 1, depth);
      NewestInSlot(b, b.top - depth - 1, b.top - 1 - depth % MAX_BARRIER_SNAPSHOTS);
    } else if depth >= b.top > 0 {
      NewestInSlot(b, 0, (b.top - 1) / MAX_BARRIER_SNAPSHOTS * MAX_BARRIER_SNAPSHOTS);
    }
  }

  lemma SameSlot(n: nat, depth: nat)
    requires depth <= n
    ensures (n - depth) % MAX_BARRIER_SNAPSHOTS == (n - depth % MAX_BARRIER_SNAPSHOTS) % MAX_BARRIER_SNAPSHOTS
  {
  }

  /**
    Over every run, a rollback `depth` barriers back aims at the generation of that barrier exactly when depth is below
    eight, and at a newer one otherwise; one that asks for more barriers than there were aims at the first barrier
    exactly when there were at most eight.
  */
  lemma RingReachesEight(d: Dom, ops: seq<DomOp>, depth: nat)
    requires InStep(d.barriers) && depth > 0
    ensures |d.barriers.ring| == MAX_BARRIER_SNAPSHOTS
    ensures var b := Run(d, ops).barriers;
      && (depth < b.top ==> (TargetGeneration(b, depth) == b.generation - depth <==> depth < MAX_BARRIER_SNAPSHOTS))
      && (depth < b.top ==> TargetGeneration(b, depth) >= b.generation - depth)
      && (depth >= b.top > 0 ==> (TargetGeneration(b, depth) == 1 <==> b.top <= MAX_BARRIER_SNAPSHOTS))
  {
    hide Run, InStep, TargetGeneration;
    RunInStep(d, ops);
    TargetIs(Run(d, ops).barriers, depth);
    RingOfInStep(Run(d, ops).barriers);
  }

  /** A visit at depth eight or more does what the visit at the remainder does; at depth eight it undoes no barrier. */
  lemma VisitDepthWraps(d: Dom, tick: nat, fp: nat, depth: nat, m: seq<Byte>)
    requires InStep(d.barriers) && depth < d.barriers.top && Loaded(d, |m|)
    ensures Attempt(d, tick, fp, depth) == Attempt(d, tick, fp, depth % MAX_BARRIER_SNAPSHOTS)
    ensures Entries(d, depth) == Entries(d, depth % MAX_BARRIER_SNAPSHOTS)
    ensures AttemptMemory(d, tick, fp, depth, m) == AttemptMemory(d, tick, fp, depth % MAX_BARRIER_SNAPSHOTS, m)
  {
    hide InStep, TargetGeneration, RollbackMemory, RolledBack, Try, TryOk, Keep;
    TargetIs(d.barriers, depth);
    TargetIs(d.barriers, depth % MAX_BARRIER_SNAPSHOTS);
  }

  /** n ticks at which the barrier of a new domain is due. */
  ghost function BarrierTicks(n: nat): (ops: seq<DomOp>)
    ensures |ops| == n
  {
    if n == 0 then [] else BarrierTicks(n - 1) + [TickOp(n * DEFAULT_BARRIER_INTERVAL)]
  }

  /** The domain is active, without a heartbeat limit, and has taken n barriers, one every interval. */
  ghost predicate Ticking(d: Dom, n: nat) {
    && |d.barriers.ring| == MAX_BARRIER_SNAPSHOTS && d.barriers.generation == n
    && d.barriers.interval == DEFAULT_BARRIER_INTERVAL && d.barriers.next == (n + 1) * DEFAULT_BARRIER_INTERVAL
    && d.guard.state == Active && d.upkeep.heartbeatMaxGap == 0
  }

  lemma TickingStep(d: Dom, n: nat)
    requires Ticking(d, n)
    ensures Ticking(Step(d, TickOp((n + 1) * DEFAULT_BARRIER_INTERVAL)), n + 1)
  {
    hide RolledBack, Try;
  }

  lemma {:induction false} BarrierTicksRun(n: nat)
    ensures Ticking(Run(FreshDom(), BarrierTicks(n)), n)
  {
    hide Step;
    if n > 0 {
      BarrierTicksRun(n - 1);
      hide Ticking;
      var ops := BarrierTicks(n);
      assert ops[..|ops| - 1] == BarrierTicks(n - 1) && ops[|ops| - 1] == TickOp(n * DEFAULT_BARRIER_INTERVAL);
      TickingStep(Run(FreshDom(), BarrierTicks(n - 1)), n - 1);
    }
  }

  /** A new domain after nine or more barriers: a rollback eight barriers back aims at the current generation. */
  lemma RingExample(n: nat)
    requires n > MAX_BARRIER_SNAPSHOTS
    ensures var b := Run(FreshDom(), BarrierTicks(n)).barriers;
      b.top == n && |b.ring| == MAX_BARRIER_SNAPSHOTS && TargetGeneration(b, MAX_BARRIER_SNAPSHOTS) == n
  {
    hide InStep, Run, TargetGeneration, FreshDom;
    FreshInStep();
    BarrierTicksRun(n);
    RunInStep(FreshDom(), BarrierTicks(n));
    var b := Run(FreshDom(), BarrierTicks(n)).barriers;
    RingOfInStep(b);
    TargetIs(b, MAX_BARRIER_SNAPSHOTS);
  }

  /** A new domain keeps all its rights. */
  lemma FreshKeepsRights(ops: seq<DomOp>)
    requires forall i :: 0 <= i < |ops| ==> !ops[i].TryOp?
    ensures Run(FreshDom(), ops).guard.caps == BitsBelow(64)
  {
    RightsNeverReduced(FreshDom(), ops);
  }
}
