/** The entry point of crash recovery: one located cascade, then a fallback over all domains. */
module Api {
  import opened Bits
  import opened Results
  import opened UndoSpec
  import opened DomainSpec
  import opened Domains
  import opened CascadeSpec
  import opened Graphs
  import opened Managers

  // ----- the crash fingerprint

  /** djb2 over the panic message up to its NUL, in 64-bit arithmetic. */
  function Djb2(msg: seq<nat>, h: nat): (r: nat)
    requires h < U64_LIMIT
    ensures r < U64_LIMIT
    decreases |msg|
  {
    if msg == [] || msg[0] == 0 then h else Djb2(msg[1..], (h * 33 + msg[0]) % U64_LIMIT)
  }

  method Fingerprint(msg: seq<nat>) returns (h: nat)
    ensures h == Djb2(msg, 5381) && h < U64_LIMIT
  {
    h := 5381;
    var i := 0;
    while i < |msg| && msg[i] != 0
      invariant 0 <= i <= |msg| && h < U64_LIMIT
      invariant Djb2(msg[i..], h) == Djb2(msg, 5381)
    {
      assert msg[i..][1..] == msg[i + 1..];
      h := (h * 33 + msg[i]) % U64_LIMIT;
      i := i + 1;
    }
  }

  ghost predicate NoNul(msg: seq<nat>) {
    forall i :: 0 <= i < |msg| ==> msg[i] != 0
  }

  /** The hash of one more character, and nothing after a NUL counts. */
  lemma {:induction false} Djb2Extends(msg: seq<nat>, h: nat, b: nat, rest: seq<nat>)
    requires h < U64_LIMIT && NoNul(msg)
    ensures b != 0 ==> Djb2(msg + [b], h) == (Djb2(msg, h) * 33 + b) % 0x1_0000_0000_0000_0000
    ensures Djb2(msg + [0] + rest, h) == Djb2(msg, h)
    decreases |msg|
  {
    if msg == [] {
      assert [b][1..] == [] && ([] + [0] + rest)[0] == 0;
    } else {
      var next := (h * 33 + msg[0]) % U64_LIMIT;
      Djb2Extends(msg[1..], next, b, rest);
      assert (msg + [b])[1..] == msg[1..] + [b];
      assert (msg + [0] + rest)[1..] == msg[1..] + [0] + rest;
    }
  }

  // ----- what a sequence of cascades with one tick and fingerprint does

  /** Since s0 every domain was granted at most one rollback, and if it was, none can be granted at this tick again. */
  ghost predicate GrantedAtMostOnce(s0: System, s: System, tick: nat) {
    && s0.Keys == s.Keys
    && forall id :: id in s0 ==>
         var g0, g := s0[id].guard, s[id].guard;
         g.rollbackCount == g0.rollbackCount || (g.rollbackCount == g0.rollbackCount + 1 && g.backoffUntil > tick)
  }

  lemma CascadeGrants(s0: System, c: CascadeRun)
    requires GrantedAtMostOnce(s0, c.before, c.tick) && CascadeEffect(c)
    ensures GrantedAtMostOnce(s0, c.after, c.tick)
  {
    hide CascadeEffect, Attempt, CascadeReaches;
    CascadeKeepsKeys(c);
    forall id | id in s0
      ensures c.after[id].guard.rollbackCount == s0[id].guard.rollbackCount
        || (&& c.after[id].guard.rollbackCount == s0[id].guard.rollbackCount + 1
            && c.after[id].guard.backoffUntil > c.tick)
    {
      CascadeAt(c, id);
      if CascadeReaches(c, id) {
        var depth :| c.after[id] == Attempt(c.before[id], c.tick, c.fp, depth);
        AttemptProgress(c.before[id], c.tick, c.fp, depth);
      }
    }
  }

  /** With a non-zero fingerprint marks stay, a second visit puts a domain out, and the root is always visited. */
  lemma CascadeMarks(c: CascadeRun, id: nat)
    requires CascadeEffect(c) && c.fp != 0 && id in c.before
    ensures id in c.after
    ensures Marked(c.before[id].guard, c.fp) ==> Marked(c.after[id].guard, c.fp)
    ensures Out(c.before[id].guard) ==> Out(c.after[id].guard)
    ensures id == c.root ==> Marked(c.after[id].guard, c.fp)
    ensures id == c.root && Marked(c.before[id].guard, c.fp) ==> Out(c.after[id].guard)
  {
    hide CascadeEffect, Attempt, Reachable;
    CascadeKeepsKeys(c);
    CascadeAt(c, id);
    if id == c.root {
      RootReachable(Links(c.before, c.tick, c.fp), c.root);
    }
    if CascadeReaches(c, id) {
      var depth :| c.after[id] == Attempt(c.before[id], c.tick, c.fp, depth);
      AttemptProgress(c.before[id], c.tick, c.fp, depth);
    }
  }

  // ----- the rounds of a recovery

  /** Cascades with one tick and fingerprint, each starting where the one before ended. */
  ghost predicate Chain(s0: System, m0: seq<Byte>, tick: nat, fp: nat, rounds: seq<CascadeRun>, s: System, m: seq<Byte>)
    decreases |rounds|
  {
    if rounds == [] then s == s0 && m == m0
    else
      var c := rounds[|rounds| - 1];
      && CascadeEffect(c) && c.tick == tick && c.fp == fp && c.after == s && c.mem' == m
      && Chain(s0, m0, tick, fp, rounds[..|rounds| - 1], c.before, c.mem)
  }

  function Roots(rounds: seq<CascadeRun>): (r: seq<nat>)
    ensures |r| == |rounds|
  {
    if rounds == [] then [] else Roots(rounds[..|rounds| - 1]) + [rounds[|rounds| - 1].root]
  }

  ghost predicate Idle(rounds: seq<CascadeRun>) {
    forall i :: 0 <= i < |rounds| ==> rounds[i].rolledBack == 0
  }

  /** The located domain and then the registered ones in slot order. */
  function RootList(target: Option<nat>, slots: seq<Option<nat>>): seq<nat> {
    if slots == [] then if target.Some? then [target.value] else []
    else
      RootList(target, slots[..|slots| - 1])
      + if slots[|slots| - 1].Some? then [slots[|slots| - 1].value] else []
  }

  lemma {:induction false} RootListPrefix(target: Option<nat>, slots: seq<Option<nat>>, n: nat)
    requires n <= |slots|
    ensures RootList(target, slots[..n]) <= RootList(target, slots)
    decreases |slots|
  {
    if n < |slots| {
      var front := slots[..|slots| - 1];
      assert front[..n] == slots[..n];
      RootListPrefix(target, front, n);
    } else {
      assert slots[..n] == slots;
    }
  }

  function Registered(slots: seq<Option<nat>>): nat {
    if slots == [] then 0 else Registered(slots[..|slots| - 1]) + if slots[|slots| - 1].Some? then 1 else 0
  }

  /** The located domain is the first root, and the domain in slot i comes after it and those in earlier slots. */
  lemma {:induction false} RootListAt(target: Option<nat>, slots: seq<Option<nat>>, i: nat)
    requires i <= |slots|
    ensures var first := if target.Some? then 1 else 0;
      && |RootList(target, slots)| == first + Registered(slots)
      && (target.Some? ==> RootList(target, slots)[0] == target.value)
      && (i < |slots| && slots[i].Some? ==>
            && first + Registered(slots[..i]) < |RootList(target, slots)|
            && RootList(target, slots)[first + Registered(slots[..i])] == slots[i].value)
    decreases |slots|
  {
    if slots != [] {
      var front := slots[..|slots| - 1];
      if i < |front| {
        assert front[..i] == slots[..i];
        RootListAt(target, front, i);
      } else {
        RootListAt(target, front, |front|);
      }
    }
  }

  lemma RootListStep(target: Option<nat>, slots: seq<Option<nat>>, i: nat)
    requires i < |slots|
    ensures RootList(target, slots[..i + 1])
      == if slots[i].Some? then RootList(target, slots[..i]) + [slots[i].value] else RootList(target, slots[..i])
    ensures RootList(target, slots[..i + 1]) <= RootList(target, slots)
  {
    assert slots[..i + 1][..i] == slots[..i];
    RootListPrefix(target, slots, i + 1);
  }

  /** The rounds so far started from `roots` and rolled nothing back. */
  ghost predicate Swept(s0: System, m0: seq<Byte>, tick: nat, fp: nat, roots: seq<nat>, rounds: seq<CascadeRun>,
                        s: System, m: seq<Byte>) {
    Chain(s0, m0, tick, fp, rounds, s, m) && Idle(rounds) && Roots(rounds) == roots
  }

  lemma NothingSwept(s: System, m: seq<Byte>, tick: nat, fp: nat)
    ensures Swept(s, m, tick, fp, [], [], s, m)
  {
  }

  /**
    A whole recovery over a list of roots.  It succeeds with the first cascade that rolls something back, whose root
    then remembers the fingerprint; it fails after one fruitless cascade from every root.
  */
  ghost predicate RecoveryRun(s0: System, m0: seq<Byte>, tick: nat, fp: nat, roots: seq<nat>, rounds: seq<CascadeRun>,
                              ok: bool, s: System, m: seq<Byte>) {
    if !ok then Swept(s0, m0, tick, fp, roots, rounds, s, m)
    else
      && rounds != []
      && var c := rounds[|rounds| - 1];
      && c.rolledBack > 0 && Idle(rounds[..|rounds| - 1]) && Roots(rounds) <= roots
      && Chain(s0, m0, tick, fp, rounds, c.after, m)
      && c.root in c.after && s == c.after[c.root := Remembering(c.after[c.root], fp)]
  }

  /** persist_crash_fingerprint on one domain. */
  function Remembering(d: Dom, fp: nat): Dom {
    d.(guard := Persist(d.guard, fp))
  }

  /** One more round: the sweep goes on, or the recovery has succeeded. */
  lemma SweptNext(s0: System, m0: seq<Byte>, roots: seq<nat>, all: seq<nat>, rounds: seq<CascadeRun>, c: CascadeRun)
    requires roots + [c.root] <= all
    requires CascadeEffect(c) && Swept(s0, m0, c.tick, c.fp, roots, rounds, c.before, c.mem)
    ensures c.rolledBack == 0 ==> Swept(s0, m0, c.tick, c.fp, roots + [c.root], rounds + [c], c.after, c.mem')
    ensures c.rolledBack > 0 && c.root in c.after ==>
      RecoveryRun(s0, m0, c.tick, c.fp, all, rounds + [c], true,
                  c.after[c.root := Remembering(c.after[c.root], c.fp)], c.mem')
  {
    hide CascadeEffect, Remembering;
    var more := rounds + [c];
    assert more[..|rounds|] == rounds && more[|rounds|] == c;
    assert Chain(s0, m0, c.tick, c.fp, more, c.after, c.mem');
  }

  // ----- what a recovery means

  lemma {:induction false} ChainShrinksLogs(s0: System, m0: seq<Byte>, tick: nat, fp: nat, rounds: seq<CascadeRun>,
                                            s: System, m: seq<Byte>)
    requires Chain(s0, m0, tick, fp, rounds, s, m)
    ensures LogsShrink(s0, s)
    decreases |rounds|
  {
    hide CascadeEffect;
    if rounds != [] {
      var c := rounds[|rounds| - 1];
      ChainShrinksLogs(s0, m0, tick, fp, rounds[..|rounds| - 1], c.before, c.mem);
      CascadeShrinksLogs(c);
    }
  }

  /** A successful recovery popped undo entries of some domain. */
  lemma SuccessPops(s0: System, m0: seq<Byte>, tick: nat, fp: nat, roots: seq<nat>, rounds: seq<CascadeRun>,
                    s: System, m: seq<Byte>)
    requires RecoveryRun(s0, m0, tick, fp, roots, rounds, true, s, m)
    ensures SomePopped(s0, s)
    ensures rounds != [] && var c := rounds[|rounds| - 1]; Rings(c.before) && Fruitful(c.before, c.root, tick, fp)
  {
    hide CascadeEffect, Fruitful, Rings;
    var c := rounds[|rounds| - 1];
    CascadeKeepsKeys(c);
    CascadeSucceedsIff(c);
    CascadeShrinksLogs(c);
    ChainShrinksLogs(s0, m0, tick, fp, rounds[..|rounds| - 1], c.before, c.mem);
    var id :| id in c.before && id in c.after && |c.after[id].log.es| < |c.before[id].log.es|;
    assert |s[id].log.es| < |s0[id].log.es|;
  }

  /** In a failed recovery no domain that a cascade reached was granted a rollback with entries to undo. */
  lemma FailurePopsNothing(s0: System, m0: seq<Byte>, tick: nat, fp: nat, roots: seq<nat>, rounds: seq<CascadeRun>,
                           s: System, m: seq<Byte>, i: nat)
    requires RecoveryRun(s0, m0, tick, fp, roots, rounds, false, s, m) && i < |rounds|
    ensures CascadeEffect(rounds[i]) && Rings(rounds[i].before)
    ensures rounds[i].root == roots[i] && !Fruitful(rounds[i].before, roots[i], tick, fp)
  {
    hide CascadeEffect, Fruitful, Rings;
    ChainAt(s0, m0, tick, fp, rounds, s, m, i);
    CascadeKeepsKeys(rounds[i]);
    CascadeSucceedsIff(rounds[i]);
  }

  /** A sweep over all roots that rolled nothing back is a failed recovery, which leaves memory exactly as it was. */
  lemma FailureKeepsMemory(s0: System, m0: seq<Byte>, tick: nat, fp: nat, roots: seq<nat>, rounds: seq<CascadeRun>,
                           s: System, m: seq<Byte>)
    requires Swept(s0, m0, tick, fp, roots, rounds, s, m)
    ensures RecoveryRun(s0, m0, tick, fp, roots, rounds, false, s, m) && m == m0
  {
    IdleChainKeepsMemory(s0, m0, tick, fp, rounds, s, m);
  }

  lemma {:induction false} IdleChainKeepsMemory(s0: System, m0: seq<Byte>, tick: nat, fp: nat, rounds: seq<CascadeRun>,
                                                s: System, m: seq<Byte>)
    requires Chain(s0, m0, tick, fp, rounds, s, m) && Idle(rounds)
    ensures m == m0
    decreases |rounds|
  {
    hide CascadeEffect;
    if rounds != [] {
      var c := rounds[|rounds| - 1];
      IdleCascadeKeepsMemory(c);
      IdleChainKeepsMemory(s0, m0, tick, fp, rounds[..|rounds| - 1], c.before, c.mem);
    }
  }

  lemma {:induction false} ChainAt(s0: System, m0: seq<Byte>, tick: nat, fp: nat, rounds: seq<CascadeRun>,
                                   s: System, m: seq<Byte>, i: nat)
    requires Chain(s0, m0, tick, fp, rounds, s, m) && i < |rounds|
    ensures CascadeEffect(rounds[i]) && rounds[i].tick == tick && rounds[i].fp == fp
    ensures Roots(rounds)[i] == rounds[i].root
    decreases |rounds|
  {
    hide CascadeEffect;
    if i < |rounds| - 1 {
      var c := rounds[|rounds| - 1];
      ChainAt(s0, m0, tick, fp, rounds[..|rounds| - 1], c.before, c.mem, i);
    }
  }

  class Recovery {
    const mgr: RecoveryManager
    var attempted: bool
    var panicFlag: bool

    constructor (manager: RecoveryManager)
      ensures mgr == manager && !attempted && !panicFlag
    {
      mgr := manager;
      attempted := false;
      panicFlag := false;
    }

    /** Domains in slots below n carry the crash's mark; a located target that was reached again is out. */
    ghost predicate MarkedBelow(s: System, fp: nat, target: Option<nat>, n: nat)
      reads mgr
    {
      fp != 0 ==>
        && (forall id :: id in s && id in mgr.slot && mgr.slot[id] < n ==> Marked(s[id].guard, fp))
        && (target.Some? && target.value in s && target.value in mgr.slot ==>
              if mgr.slot[target.value] < n then Out(s[target.value].guard) else Marked(s[target.value].guard, fp))
    }

    /**
      recovery_try_recover_from_idt.  `target` is the domain located from the fault address or the panic message,
      `lockFree` says whether the manager's lock could be taken.
    */
    method TryRecover(tick: nat, lockFree: bool, panicMsg: seq<nat>, target: Option<nat>)
      returns (r: int, ghost rounds: seq<CascadeRun>)
      requires mgr.Valid()
      requires target.Some? ==> target.value in mgr.live
      modifies this, mgr.Parts(), mgr.mem
      ensures mgr.Valid() && unchanged(mgr)
      ensures GrantedAtMostOnce(old(mgr.Snap()), mgr.Snap(), tick)
      ensures old(attempted) ==> r == -2 && attempted
      ensures !old(attempted) && !lockFree ==> r == -3 && !attempted
      ensures old(attempted) || !lockFree ==> mgr.Snap() == old(mgr.Snap())
      ensures !old(attempted) && lockFree ==> (r == 0 || r == -1) && (attempted <==> r == -1)
      ensures !old(attempted) && lockFree ==>
        RecoveryRun(old(mgr.Snap()), old(mgr.mem.bytes), tick, Djb2(panicMsg, 5381),
                    RootList(target, SlotIds(mgr.domains, mgr.count)), rounds, r == 0, mgr.Snap(), mgr.mem.bytes)
      ensures r == 0 ==> !panicFlag && SomePopped(old(mgr.Snap()), mgr.Snap())
      ensures r != 0 ==> panicFlag == old(panicFlag) && mgr.mem.bytes == old(mgr.mem.bytes)
      ensures r == -1 && Djb2(panicMsg, 5381) != 0 ==> Exhausted(mgr.Snap(), Djb2(panicMsg, 5381), target)
    {
      hide RecoveryManager.Valid, RecoveryManager.Snap, GrantedAtMostOnce, Exhausted, Djb2, RecoveryRun, SomePopped,
        RootList, SlotIds;
      NothingGranted(mgr.Snap(), tick);
      SlotsReady();
      rounds := [];
      if attempted {
        return -2, [];
      }
      SetFlags(true, panicFlag);
      if !lockFree {
        SetFlags(false, panicFlag);
        return -3, [];
      }
      if mgr.count == 0 {
        NoDomains(tick, Djb2(panicMsg, 5381), target);
        return -1, [];
      }
      var fp := Fingerprint(panicMsg);
      var ok;
      ok, rounds := RunCascades(tick, fp, target);
      if ok {
        SetFlags(false, false);
      }
      r := if ok then 0 else -1;
    }

    /** The attempted and panic flags; nothing of the manager changes with them. */
    method SetFlags(a: bool, p: bool)
      requires mgr.Valid()
      modifies this
      ensures attempted == a && panicFlag == p
      ensures mgr.Valid() && mgr.Snap() == old(mgr.Snap())
    {
      hide Tables, Separate, DomainOk;
      attempted, panicFlag := a, p;
    }

    /** Every domain carries the crash's fingerprint or is out, and the located domain is quarantined. */
    ghost predicate Exhausted(s: System, fp: nat, target: Option<nat>) {
      && (forall id :: id in s ==> Marked(s[id].guard, fp))
      && (target.Some? && target.value in s ==> Out(s[target.value].guard))
    }

    /** The located cascade and then one cascade per slot, until one of them rolls something back. */
    method RunCascades(tick: nat, fp: nat, target: Option<nat>) returns (ok: bool, ghost rounds: seq<CascadeRun>)
      requires mgr.Valid() && (target.Some? ==> target.value in mgr.live)
      modifies mgr.Parts(), mgr.mem
      ensures mgr.Valid() && unchanged(mgr) && unchanged(this)
      ensures GrantedAtMostOnce(old(mgr.Snap()), mgr.Snap(), tick)
      ensures !ok && fp != 0 ==> Exhausted(mgr.Snap(), fp, target)
      ensures RecoveryRun(old(mgr.Snap()), old(mgr.mem.bytes), tick, fp,
                          RootList(target, SlotIds(mgr.domains, mgr.count)), rounds, ok, mgr.Snap(), mgr.mem.bytes)
      ensures ok ==> SomePopped(old(mgr.Snap()), mgr.Snap())
      ensures !ok ==> mgr.mem.bytes == old(mgr.mem.bytes)
    {
      hide RecoveryManager.Valid, RecoveryManager.Snap, RecoveryManager.Parts, GrantedAtMostOnce, MarkedBelow,
        CascadeEffect, Exhausted, Swept, RecoveryRun, RootList, SomePopped, Remembering, SlotIds;
      ghost var s0, m0 := mgr.Snap(), mgr.mem.bytes;
      SlotsReady();
      ghost var slots := SlotIds(mgr.domains, mgr.count);
      RootListNone(target, slots);
      NothingGranted(s0, tick);
      NothingSwept(s0, m0, tick, fp);
      rounds := [];
      if target.Some? {
        assert [] + [target.value] == [target.value];
        var rollbacks, c := Cascade(s0, target.value, tick, fp, target);
        SweptNext(s0, m0, [], RootList(target, slots), rounds, c);
        rounds := rounds + [c];
        if rollbacks > 0 {
          var d := mgr.Find(target.value);
          Remember(s0, d, tick, fp);
          SuccessPops(s0, m0, tick, fp, RootList(target, slots), rounds, mgr.Snap(), mgr.mem.bytes);
          return true, rounds;
        }
      } else {
        NothingMarked(s0, fp);
      }
      var i := 0;
      while i < mgr.count
        invariant i <= mgr.count && mgr.Valid() && unchanged(mgr) && unchanged(this)
        invariant GrantedAtMostOnce(s0, mgr.Snap(), tick) && MarkedBelow(mgr.Snap(), fp, target, i)
        invariant Swept(s0, m0, tick, fp, RootList(target, slots[..i]), rounds, mgr.Snap(), mgr.mem.bytes)
      {
        ManagerSlot(i);
        RootListStep(target, slots, i);
        if mgr.domains[i] != null {
          var d := mgr.domains[i];
          var rollbacks, c := CascadeSlot(s0, d, tick, fp, target, i);
          SweptNext(s0, m0, RootList(target, slots[..i]), RootList(target, slots), rounds, c);
          rounds := rounds + [c];
          if rollbacks > 0 {
            Remember(s0, d, tick, fp);
            SuccessPops(s0, m0, tick, fp, RootList(target, slots), rounds, mgr.Snap(), mgr.mem.bytes);
            return true, rounds;
          }
        } else {
          SkipSlot(mgr.Snap(), fp, target, i);
        }
        i := i + 1;
      }
      assert slots[..mgr.count] == slots;
      if fp != 0 {
        MarkedAll(mgr.Snap(), fp, target);
      }
      ok := false;
      FailureKeepsMemory(s0, m0, tick, fp, RootList(target, slots), rounds, mgr.Snap(), mgr.mem.bytes);
    }

    lemma SlotsReady()
      requires mgr.Valid()
      ensures mgr.count <= |mgr.domains|
    {
      mgr.TablesShape();
    }

    lemma RootListNone(target: Option<nat>, slots: seq<Option<nat>>)
      ensures RootList(target, slots[..0]) == (if target.Some? then [target.value] else []) <= RootList(target, slots)
    {
      RootListPrefix(target, slots, 0);
    }

    /** One cascade of the recovery; `target` is the located domain if the cascade starts there. */
    method Cascade(ghost s0: System, root: nat, tick: nat, fp: nat, ghost target: Option<nat>)
      returns (rollbacks: nat, ghost c: CascadeRun)
      requires mgr.Valid() && GrantedAtMostOnce(s0, mgr.Snap(), tick) && target == Some(root) && root in mgr.live
      modifies mgr.Parts(), mgr.mem
      ensures mgr.Valid() && unchanged(mgr) && unchanged(this)
      ensures CascadeEffect(c) && c == CascadeRun(root, tick, fp, c.order, rollbacks, old(mgr.Snap()), mgr.Snap(),
                                                  old(mgr.mem.bytes), mgr.mem.bytes)
      ensures root in mgr.Snap()
      ensures GrantedAtMostOnce(s0, mgr.Snap(), tick) && MarkedBelow(mgr.Snap(), fp, target, 0)
    {
      hide RecoveryManager.Valid, RecoveryManager.Snap, GrantedAtMostOnce, MarkedBelow, CascadeEffect, Fruitful,
        SystemStep, Rings, AllLoaded, WellFormedDom;
      rollbacks, c := mgr.CascadeRollback(root, tick, fp);
      mgr.SnapWellFormed();
      CascadeGrants(s0, c);
      MarkTarget(c);
    }

    /** One cascade of the fallback, from the domain in slot i. */
    method CascadeSlot(ghost s0: System, d: RecoveryDomain, tick: nat, fp: nat, ghost target: Option<nat>, ghost i: nat)
      returns (rollbacks: nat, ghost c: CascadeRun)
      requires mgr.Valid() && GrantedAtMostOnce(s0, mgr.Snap(), tick) && MarkedBelow(mgr.Snap(), fp, target, i)
      requires forall id :: id in mgr.slot && mgr.slot[id] == i ==> id == d.id
      requires d.id in mgr.live && d.id in mgr.slot && mgr.slot[d.id] == i
      modifies mgr.Parts(), mgr.mem
      ensures mgr.Valid() && unchanged(mgr) && unchanged(this)
      ensures CascadeEffect(c) && c == CascadeRun(d.id, tick, fp, c.order, rollbacks, old(mgr.Snap()), mgr.Snap(),
                                                  old(mgr.mem.bytes), mgr.mem.bytes)
      ensures d.id in mgr.Snap()
      ensures GrantedAtMostOnce(s0, mgr.Snap(), tick) && MarkedBelow(mgr.Snap(), fp, target, i + 1)
    {
      hide RecoveryManager.Valid, RecoveryManager.Snap, GrantedAtMostOnce, MarkedBelow, CascadeEffect, Fruitful,
        SystemStep, Rings, AllLoaded, WellFormedDom;
      rollbacks, c := mgr.CascadeRollback(d.id, tick, fp);
      mgr.SnapWellFormed();
      CascadeGrants(s0, c);
      MarkSlot(c, target, i);
    }

    /** The success path: the domain remembers the fingerprint. */
    method Remember(ghost s0: System, d: RecoveryDomain, tick: nat, fp: nat)
      requires mgr.Valid() && GrantedAtMostOnce(s0, mgr.Snap(), tick)
      requires d.id in mgr.live && mgr.live[d.id] == d
      modifies mgr.Parts()
      ensures mgr.Valid() && unchanged(mgr) && unchanged(this) && mgr.mem.bytes == old(mgr.mem.bytes)
      ensures d.id in old(mgr.Snap())
      ensures mgr.Snap() == old(mgr.Snap())[d.id := Remembering(old(mgr.Snap())[d.id], fp)]
      ensures GrantedAtMostOnce(s0, mgr.Snap(), tick)
    {
      hide RecoveryManager.Valid, RecoveryManager.Snap, GrantedAtMostOnce;
      mgr.PartsHold(d);
      mgr.SnapWellFormed();
      PersistGrants(s0, mgr.Snap(), tick, d.id, fp);
      mgr.VisitPersist(d, fp);
    }

    lemma PersistGrants(s0: System, s: System, tick: nat, id: nat, fp: nat)
      requires GrantedAtMostOnce(s0, s, tick) && id in s && Rings(s)
      ensures GrantedAtMostOnce(s0, s[id := DomainSpec.Step(s[id], PersistOp(fp))], tick)
    {
    }

    lemma NothingGranted(s: System, tick: nat)
      ensures GrantedAtMostOnce(s, s, tick)
    {
    }

    lemma NothingMarked(s: System, fp: nat)
      ensures MarkedBelow(s, fp, None, 0)
    {
    }

    lemma NoDomains(tick: nat, fp: nat, target: Option<nat>)
      requires mgr.Valid() && mgr.count == 0 && (target.Some? ==> target.value in mgr.live)
      ensures Exhausted(mgr.Snap(), fp, target) && mgr.count <= |mgr.domains|
      ensures RecoveryRun(mgr.Snap(), mgr.mem.bytes, tick, fp, RootList(target, SlotIds(mgr.domains, mgr.count)), [],
                          false, mgr.Snap(), mgr.mem.bytes)
    {
      hide Marked, Out, DomainOk, Separate;
    }

    lemma ManagerSlot(i: nat)
      requires mgr.Valid() && i < mgr.count
      ensures i < |mgr.domains|
      ensures mgr.domains[i] != null ==>
        var d := mgr.domains[i];
        && d.id in mgr.live && mgr.live[d.id] == d && d.id in mgr.slot && mgr.slot[d.id] == i
        && (forall id :: id in mgr.slot && mgr.slot[id] == i ==> id == d.id)
      ensures mgr.domains[i] == null ==> forall id :: id in mgr.slot ==> mgr.slot[id] != i
    {
      mgr.SlotFacts(i);
    }

    lemma MarkTarget(c: CascadeRun)
      requires CascadeEffect(c)
      ensures MarkedBelow(c.after, c.fp, Some(c.root), 0)
    {
      hide CascadeEffect, Marked, Out;
      CascadeKeepsKeys(c);
      if c.fp != 0 && c.root in c.before {
        CascadeMarks(c, c.root);
      }
    }

    lemma MarkSlot(c: CascadeRun, target: Option<nat>, i: nat)
      requires CascadeEffect(c) && MarkedBelow(c.before, c.fp, target, i)
      requires c.root in mgr.slot && mgr.slot[c.root] == i
      requires forall id :: id in mgr.slot && mgr.slot[id] == i ==> id == c.root
      ensures MarkedBelow(c.after, c.fp, target, i + 1)
    {
      hide CascadeEffect, Marked, Out;
      CascadeKeepsKeys(c);
      if c.fp != 0 {
        forall id | id in c.before
          ensures Marked(c.before[id].guard, c.fp) || id == c.root ==> Marked(c.after[id].guard, c.fp)
          ensures Out(c.before[id].guard) ==> Out(c.after[id].guard)
          ensures id == c.root && Marked(c.before[id].guard, c.fp) ==> Out(c.after[id].guard)
        {
          CascadeMarks(c, id);
        }
      }
    }

    lemma SkipSlot(s: System, fp: nat, target: Option<nat>, i: nat)
      requires MarkedBelow(s, fp, target, i) && forall id :: id in mgr.slot ==> mgr.slot[id] != i
      ensures MarkedBelow(s, fp, target, i + 1)
    {
    }

    lemma MarkedAll(s: System, fp: nat, target: Option<nat>)
      requires MarkedBelow(s, fp, target, mgr.count) && mgr.Valid() && s == mgr.Snap() && fp != 0
      ensures Exhausted(s, fp, target)
    {
      hide Marked, Out, DomainOk;
    }
  }
}
