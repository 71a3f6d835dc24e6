# Verified model of the kernel's buddy allocator, barrier recovery and block composition

This Dafny project models five parts of the kernel and proves what each keeps over whole runs.

* **Buddy page allocator.** Free pages are kept on one doubly linked list per order; the nodes live inside the free
  pages and address 0 ends a list. `BuddyLists` relates that memory to a sequence of pages per order and to an ownership
  map from pages to blocks. `BuddyBlocks` is the greedy cut of a range into aligned blocks, `BuddySplit` the splitting on
  allocation and the cutting on reservation, `BuddyReserve` the lists these leave, `BuddyRuns` the conservation of pages
  over runs, and `Buddy` the allocator itself, a class over arrays.
* **Barrier recovery.** `UndoSpec` and `UndoLog` are the generation-stamped undo log with its two compactions,
  `UndoCompaction` what exactly these and a rollback leave, and `UndoMemory` what undoing does to memory; `DomainSpec` and
  `Domain` are one recovery domain with backoff, degradation and quarantine, and `DomainLaws` its rules in plain numbers;
  `CascadeSpec` and `Manager` the registration tables, the periodic tick, the boot check and the
  breadth-first rollback cascade, with their effect on memory; `Api` the entry point of crash recovery.
* **Recovery ordering** (`RecoveryOrder`): an explicit-stack walk over a dependency graph that may have cycles.
* **Composite block devices** (`CompositeSpec`, `Composite`): RAID0 and RAID1 over a table of disks, both shown to be
  one flat disk.
* **Ordered structures**: the device tree (`DevTree`) and the device snapshot registry (`Snapshots`).

State that the kernel changes in place is a class with fields or arrays; each method is proved equal to a function on
values, and the theorems about runs are lemmas about those functions. Ticks, fingerprints, the outcome of `try_lock`,
the located crash domain and the answers of disk drivers are parameters.

## What the proofs found out about the code

* The write-back guard of `rollback_to` compares the checksum of the bytes now in memory with that of the old value.
  `UndoSpec.UndoKeepsChecksum` shows that no rollback changes the checksum of any field, and `UndoSpec.UndoRestoresIff`
  that a field gets its recorded bytes back exactly when its checksum already matched; an overwritten one-byte field
  never does (`UndoSpec.OverwrittenByteStays`). A rollback that changes memory at all meets a field whose
  bytes differ from the recorded ones but have their checksum (`UndoSpec.ChangeNeedsCollision`). What the log is for,
  restoring the oldest recorded bytes, holds of the unguarded write-back (`UndoMemory.PlainUndoRestores`).
* `record` indexes past the end of a full log that emergency compaction cannot shrink. `UndoSpec.HasRoomIff` says
  exactly when that does not happen: the field is recorded already, the log is not full, or one of its last 64 entries
  repeats a field of the previous generation. A log full of the current generation never has room
  (`UndoSpec.FullGenerationHasNoRoom`, `UndoSpec.NoRoomExample`).
* A rollback at depth 0 undoes only what was recorded since the last barrier (`DomainSpec.PopsSinceBarrier`), so a tick
  that takes a barrier first and then rolls back undoes nothing (`DomainSpec.BarrierHidesRecords`).
* A field recorded through the plain call while the log is behind the domain's generation is not popped by such
  a rollback (`DomainLaws.StaleRecordStays`); one recorded through a recoverable lock is
  (`DomainLaws.SyncedRecordIsPopped`).
* The backoff doubles up to the eighth failure, but no attempt is granted from five failures on, so no wait is longer
  than 1600 ticks (`DomainSpec.GapAfterGrant`, `DomainLaws.AttemptLaw`).
* Compaction to the newest generations sees the first sixteen only: of more it drops as many as of sixteen, so more stay
  than asked for (`UndoCompaction.CompactedExact`).
* The degradation ladder takes rights away with the failure count (`DomainSpec.LadderRights`), but every granted attempt
  is followed by the rollback that forgives it, so over no run does a domain lose a right
  (`DomainSpec.RightsNeverReduced`).
* Rolling back several barriers reads a ring of eight, so depths count modulo eight (`DomainSpec.TargetIs`): over every
  run the generation asked for is found exactly below depth eight (`DomainSpec.RingReachesEight`), and a cascade's visit
  at depth eight undoes the current generation only (`DomainSpec.VisitDepthWraps`, `DomainSpec.RingExample`).
* Two attempts with one non-zero fingerprint quarantine a domain even if the first was only turned away by the backoff
  (`DomainSpec.SecondAttemptQuarantines`), so a failed recovery call leaves the located domain quarantined and the
  attempted flag set: every later call returns -2 (`Api.Recovery.TryRecover`).
* `recovery.rs` documents an order in which dependencies come first. The code puts the root first;
  `RecoveryOrder.DependenciesFirstIff` says exactly when the result is nevertheless dependency-first.
* An automatically assigned id may already be taken by a preferred one: `RecoveryOrder.IdsUniqueIff` says over which
  runs of registrations ids stay unique, and `RecoveryOrder.ClashExample` is one over which they do not.
* `add_dependency` reports success when all slots are taken and nothing is stored (`Domains.RecoveryDomain.AddDependency`).
* RAID0 passes the child's index, not its drive number, to the block layer: `CompositeSpec.Raid0BackedIff` says when the
  space is nevertheless backed, `Composites.Raid0IgnoresDriveNumbers` is an accepted device over drive 1 that lives on
  drive 0 and fails every write, and by `CompositeSpec.StripeSetsCollide` two stripe sets overwrite each other's data
  whatever drives they were made of.
* `compute_recovery_order` panics when a registered id has its first position past the 64 flags
  (`RecoveryOrder.ComputeRecoveryOrder`), that is, with more than 64 domains when ids are unique.
* The device tree's walk visits every node exactly when no node is created without a parent before the one and only
  initialisation (`DevTrees.RunWalksAllIff`).

## Model

| member | source | states |
|---|---|---|
| Bits.FloorLog2 | host-tests/src/buddy.rs:148 | the position of the highest set bit, bounded by powers of two on both sides |
| Bits.MultipleOfPow2 | host-tests/src/buddy.rs:151 | being a multiple of a power of two is the same as having that many low zero bits |
| BuddyBlocks.ChooseOrder | host-tests/src/buddy.rs:148-155 | the order search returns the greatest order allowed by alignment, remaining length and the cap |
| BuddyBlocks.GreedyTiles | host-tests/src/buddy.rs:144-162 | the cut of a range tiles it exactly, without gap or overlap |
| BuddyBlocks.GreedyAllBest | host-tests/src/buddy.rs:148-156 | every block of the cut is the largest its position allows |
| BuddyBlocks.GreedyAllWhole | host-tests/src/buddy.rs:144-162 | every page of every block of the cut is owned by that block |
| BuddyBlocks.GreedyMapsBlocks | host-tests/src/buddy.rs:144-162 | the list of pushed blocks and the resulting ownership map name the same blocks |
| BuddyBlocks.GreedyIsCoarsest | host-tests/src/buddy.rs:142-162 | no cut of a range into aligned blocks has fewer blocks |
| BuddyLists.ChainPush | host-tests/src/buddy.rs:78-90 | the pointer writes of a push turn a chain for s into one for page followed by s |
| BuddyLists.ChainPushOther | host-tests/src/buddy.rs:78-90 | a push leaves every other list's chain intact |
| BuddyLists.ChainRemove | host-tests/src/buddy.rs:92-105 | the pointer writes of a removal at any position give the chain without that page |
| BuddyLists.ChainRemoveOther | host-tests/src/buddy.rs:92-105 | a removal leaves every other list's chain intact |
| BuddyLists.OwnedBlocksDisjoint | host-tests/src/buddy.rs:78-105 | two listed blocks that share a page are the same block |
| BuddyLists.FreeIffListed | host-tests/src/buddy.rs:78-105 | a page is free exactly when a listed block contains it |
| BuddyLists.HoldsPush | host-tests/src/buddy.rs:78-90 | pushing a block of unowned pages keeps lists, ownership and memory consistent |
| BuddyLists.HoldsRemove | host-tests/src/buddy.rs:92-105 | removing a listed block keeps lists, ownership and memory consistent |
| BuddySplit.SplitFreeAt | host-tests/src/buddy.rs:121-130 | page by page, the buddies pushed by the split loop cover exactly the split block minus the allocated front |
| BuddySplit.SplitIsAllocPages | host-tests/src/buddy.rs:118-130 | the split loop's ownership equals the closed form in which each remaining page belongs to the buddy given by its distance's top bit |
| BuddySplit.SplitLabelsStep | host-tests/src/buddy.rs:124-129 | labelling buddy by buddy gives the closed form of all labels |
| BuddySplit.AllocKeepsAlignment | host-tests/src/buddy.rs:121-130 | splitting keeps every free block naturally aligned |
| BuddySplit.GreedyAligned | host-tests/src/buddy.rs:148-157 | blocks pushed for a range are naturally aligned |
| BuddySplit.RemnantFacts | host-tests/src/buddy.rs:178-185 | what is pushed back for a cut block is exactly its pages outside the range, in whole aligned blocks of strictly lower order |
| BuddySplit.CutStepInto | host-tests/src/buddy.rs:175-186 | visiting an overlapping block replaces it by its remnant in the walk's ownership |
| BuddySplit.CutStepOver | host-tests/src/buddy.rs:170-188 | visiting a block that does not overlap changes nothing |
| BuddySplit.WalkedBlockIsOriginal | host-tests/src/buddy.rs:168-188 | a block met on the list being walked is an original one, although the walk pushes pieces |
| BuddySplit.ReserveFacts | host-tests/src/buddy.rs:166-189 | after the walk exactly the range is gone, blocks are whole, disjoint and keep alignment, none touches the range |
| BuddyReserve.PushBlocksAt | host-tests/src/buddy.rs:144-162 | after push_free_range each order's list is the pushed heads of that order, the last pushed first, in front of the old list |
| BuddyReserve.ReservedListsAt | host-tests/src/buddy.rs:166-189 | after reserve_range each list is its blocks that do not overlap, in their old order, behind the pieces of that order cut from overlapping blocks, the last cut first; with it the page of the next allocation is determined |
| BuddyRuns.StepKeepsPartition | host-tests/src/buddy.rs:107-205 | a legal call keeps every managed page exactly one of free, handed out, reserved |
| BuddyRuns.ReserveLegalIff | host-tests/src/buddy.rs:166-195 | reserving keeps the partition exactly when no page of the range is handed out |
| BuddyRuns.RunConserves | host-tests/src/buddy.rs:107-205 | conservation of pages over every legal run |
| BuddyRuns.UsedGrows | host-tests/src/buddy.rs:107-205 | handed-out pages stay handed out |
| BuddyRuns.NoDoubleHandOut | host-tests/src/buddy.rs:107-136 | over every legal run no page is handed out twice and none while reserved |
| Buddy.BuddyAllocator.constructor | host-tests/src/buddy.rs:30-51 | an initialised allocator with nothing free |
| Buddy.BuddyAllocator.OmSet | host-tests/src/buddy.rs:72-76 | sets one label, ignoring pages outside the map |
| Buddy.BuddyAllocator.ListPush | host-tests/src/buddy.rs:78-90 | the in-page list becomes page followed by the old list; the block's pages become free |
| Buddy.BuddyAllocator.ListRemove | host-tests/src/buddy.rs:92-105 | the k-th node leaves its list; exactly its block's pages stop being free |
| Buddy.BuddyAllocator.PushFreeRange | host-tests/src/buddy.rs:144-162 | frees the range as its greedy cut; every list is the blocks of the cut of its order in front of what it was |
| Buddy.BuddyAllocator.FindOrder | host-tests/src/buddy.rs:111-117 | the lowest non-empty order at or above the wanted one |
| Buddy.BuddyAllocator.Split | host-tests/src/buddy.rs:121-130 | lists, ownership and labels after the split loop equal their closed forms |
| Buddy.BuddyAllocator.MarkUsed | host-tests/src/buddy.rs:131-134 | labels head and interior of the handed-out block |
| Buddy.AllocLabels | host-tests/src/buddy.rs:121-134 | the label of every page after an allocation in numbers: 0x80 plus the order, 0xFF inside, each buddy its order, 0xFE inside it, all others as before |
| Buddy.BuddyAllocator.AllocOrder | host-tests/src/buddy.rs:107-136 | None exactly when no list at or above the order is non-empty (or the order is too large, or not initialised); else the first block of the lowest order, split, with all labels |
| Buddy.BuddyAllocator.CutBlock | host-tests/src/buddy.rs:175-186 | one overlapping block is unlinked and its outside pushed back; all lists and the ownership afterwards |
| Buddy.BuddyAllocator.ReserveOnList | host-tests/src/buddy.rs:169-188 | the walk over one list, editing it on the way, visits exactly the original blocks; all lists and the ownership afterwards |
| Buddy.BuddyAllocator.ReserveRange | host-tests/src/buddy.rs:166-195 | exactly the old free pages minus the range stay free, as disjoint blocks on determined lists; the range is marked reserved |
| Buddy.BuddyAllocator.UnreserveRange | host-tests/src/buddy.rs:198-205 | the range becomes free as its greedy cut, pushed in front of the lists, and is no longer reserved |
| Buddy.BuddyAllocator.AllocPage | host-tests/src/buddy.rs:107-136 | a single-page allocation returns a free unreserved page, or nothing was free |
| Buddy.BuddyAllocator.Drain | host-tests/src/buddy.rs:107-136 | single-page allocations until failure hand out every free page exactly once |
| UndoLogs.Checksum | src/kernel/framework/barrier/undo_log.rs:7-14 | the FNV-1a loop computes the recursive hash |
| UndoMemory.FnvVectors | src/kernel/framework/barrier/undo_log.rs:7-14 | published FNV-1a values: of nothing, of one byte and of six bytes |
| UndoSpec.KeepIsExact | src/kernel/framework/barrier/undo_log.rs:85-107 | on a sorted log, popping keeps exactly the entries older than the target |
| UndoSpec.PopIsRollback | src/kernel/framework/barrier/undo_log.rs:87-102 | pop-by-pop undo has the memory effect of undoing the whole popped suffix, newest first |
| UndoSpec.UndoKeepsChecksum | src/kernel/framework/barrier/undo_log.rs:94-98 | no rollback changes the checksum of a recorded field |
| UndoSpec.UndoRestoresIff | src/kernel/framework/barrier/undo_log.rs:94-98 | the field of its oldest entry is restored if and only if its checksum already equals the recorded one |
| UndoSpec.OverwrittenByteStays | src/kernel/framework/barrier/undo_log.rs:94-98 | a recorded one-byte field that was overwritten since is never put back |
| UndoSpec.UndoElsewhere | src/kernel/framework/barrier/undo_log.rs:94-98 | entries of other fields leave a field alone |
| UndoMemory.UndoLeavesRest | src/kernel/framework/barrier/undo_log.rs:87-102 | undoing a log changes no byte outside its fields |
| UndoMemory.UndoAgrees | src/kernel/framework/barrier/undo_log.rs:87-102 | what undoing leaves in a log's fields depends on nothing but those fields |
| UndoMemory.PlainUndoRestores | src/kernel/framework/barrier/undo_log.rs:189-196 | the intent: with write-back unguarded, every recorded field gets its oldest recorded bytes back, whatever memory holds |
| UndoMemory.RecordThenPlainUndo | src/kernel/framework/barrier/undo_log.rs:46-82 | the intent of one record: a field recorded in a memory and overwritten since comes back, and memory with it, when undone unguarded |
| UndoMemory.GuardMeetsIntentIff | src/kernel/framework/barrier/undo_log.rs:94-98 | the code meets that intent on a field if and only if the field's checksum already equals the recorded one |
| UndoSpec.ChangeNeedsCollision | src/kernel/framework/barrier/undo_log.rs:94-98 | a rollback that changes memory meets an entry whose field holds other bytes than the recorded ones with the recorded checksum |
| UndoSpec.CompactedKeepsNewest | src/kernel/framework/barrier/undo_log.rs:161-186 | compaction keeps a suffix starting at a generation boundary with at least the asked number of generations, or everything |
| UndoCompaction.CompactedExact | src/kernel/framework/barrier/undo_log.rs:161-186 | exactly which entries are dropped: those of the oldest generations, as many as min(number of generations, 16) exceeds the number to keep; what stays is a suffix with all other generations |
| UndoCompaction.RolledBackExact | src/kernel/framework/barrier/undo_log.rs:85-107 | what a rollback leaves: at most 128 older entries stay exactly, in order; of more, the suffix without their oldest generations, four of the first sixteen being kept |
| UndoSpec.CompactedCommutes | src/kernel/framework/barrier/undo_log.rs:161-186 | compacting first does not change a rollback to a kept generation: same memory, same number popped, and the log left is the compacted one |
| UndoSpec.SeenIsRecent | src/kernel/framework/barrier/undo_log.rs:113-134 | the 64-slot table holds every recent field while there are at most 64 of them, and exactly 64 otherwise, without repeats |
| UndoSpec.SeenIff | src/kernel/framework/barrier/undo_log.rs:116-134 | a field is in the table exactly when a recent entry records it with fewer than 64 recent fields after |
| UndoSpec.DroppedIff | src/kernel/framework/barrier/undo_log.rs:116-143 | emergency compaction drops exactly the recent entries whose field is recorded again later with fewer than 64 recent fields after that |
| UndoSpec.EmergencyKeeps | src/kernel/framework/barrier/undo_log.rs:109-153 | every current-generation entry and every entry older than keep_gen survives |
| UndoSpec.EmergencyRoomIff | src/kernel/framework/barrier/undo_log.rs:109-153 | compaction makes room exactly when there is such an entry |
| UndoSpec.EmergencyPopsIff | src/kernel/framework/barrier/undo_log.rs:109-153 | for every generation t, as many entries are popped as without compaction if and only if none of generation t or later was dropped, and then memory ends the same |
| UndoSpec.HasRoomIff | src/kernel/framework/barrier/undo_log.rs:66-82 | record stays inside the log if and only if the field is recorded already, the log is not full, or one of its last 64 entries repeats a field of the previous generation |
| UndoSpec.EmergencySameRollback | src/kernel/framework/barrier/undo_log.rs:109-153 | emergency compaction does not change what rolling back the current generation does, in memory and count |
| UndoSpec.FullGenerationHasNoRoom | src/kernel/framework/barrier/undo_log.rs:66-75 | a log full of current-generation entries has no room for a new field |
| UndoSpec.NoRoomExample | src/kernel/framework/barrier/undo_log.rs:66-82 | 256 fields recorded in one generation leave no room for another |
| UndoSpec.RecordingInv | src/kernel/framework/barrier/undo_log.rs:46-83 | recording keeps the log sorted with one entry per generation and field |
| UndoMemory.RecordingAppends | src/kernel/framework/barrier/undo_log.rs:70-82 | recording a new field where there is room keeps the log and adds one entry with the generation, the pointer and the first eight bytes of the value |
| UndoSpec.RolledBackInv | src/kernel/framework/barrier/undo_log.rs:85-107 | rolling back keeps the log sorted with one entry per generation and field |
| UndoSpec.RunKeepsInv | src/kernel/framework/barrier/undo_log.rs:46-186 | both hold over every run of records, rollbacks, compactions and new generations |
| UndoLogs.UndoLog.AlreadyRecorded | src/kernel/framework/barrier/undo_log.rs:50-64 | the early-exit scan agrees with a full scan |
| UndoLogs.UndoLog.Record | src/kernel/framework/barrier/undo_log.rs:46-83 | appends the padded old value once per generation and field, compacting a full log first; where the kernel would index past the end the log is unchanged |
| UndoLogs.UndoLog.EmergencyCompact | src/kernel/framework/barrier/undo_log.rs:109-153 | the two passes in place equal the backward-scan specification, in the original order |
| UndoLogs.UndoLog.WriteBackGuarded | src/kernel/framework/barrier/undo_log.rs:93-98 | one entry's guarded write-back |
| UndoLogs.UndoLog.RollbackTo | src/kernel/framework/barrier/undo_log.rs:85-107 | pops exactly the newer entries, returns their number, has their undo effect, and leaves the log that RolledBackExact describes |
| UndoLogs.UndoLog.FindGenStarts | src/kernel/framework/barrier/undo_log.rs:165-176 | the first sixteen generation starts |
| UndoLogs.UndoLog.CompactKeeping | src/kernel/framework/barrier/undo_log.rs:161-186 | sliding entries down in place gives the specified suffix |
| DomainSpec.StepStaysOut | src/kernel/framework/barrier/domain.rs:107-123 | past five failures no operation rolls a domain back, lowers its failures or pops an entry; only recording changes its log |
| DomainSpec.QuarantineIsFinal | src/kernel/framework/barrier/domain.rs:107-123 | the same over every run of attempts, ticks, boot checks, records, heartbeats and new dependencies, whatever label the boot check writes |
| DomainSpec.GrantSetsBackoff | src/kernel/framework/barrier/domain.rs:125-135 | a grant waits for the backoff and sets the next one; nothing else touches backoff, count or time |
| DomainSpec.BackoffMonotone | src/kernel/framework/barrier/domain.rs:126-131 | the end of the backoff never moves back |
| DomainSpec.GapAfterGrant | src/kernel/framework/barrier/domain.rs:125-131 | after a grant at 0, 1, 2, 3 or 4 failures the next one comes at least 100, 200, 400, 800 or 1600 ticks later; no grant happens at more failures |
| DomainSpec.BackoffIs | src/kernel/framework/barrier/domain.rs:125 | the backoff in numbers for every failure count, 25600 from eight on |
| DomainLaws.AttemptLaw | src/kernel/framework/barrier/domain.rs:107-140 | an attempt is granted if and only if there are fewer than five failures, the crash is not a repeated one and the wait is over; the exact wait, count, time and fingerprint after it, and what each refusal changes |
| DomainLaws.NextGrantIff | src/kernel/framework/barrier/domain.rs:107-140 | in every run, the next attempt after a grant at f failures is granted if and only if 100, 200, 400, 800 or 1600 ticks have passed, failures are below five and the crash is new |
| DomainLaws.BarrierLaw | src/kernel/framework/barrier/manager.rs:103-107 | a tick takes one barrier of an active or degraded domain whose time has come, and none otherwise; its number, ring slot and next time |
| DomainLaws.HeartbeatLaw | src/kernel/framework/barrier/manager.rs:111-158 | a domain whose heartbeat is not overdue keeps guard and log and does not escalate; the first tick under a limit arms the heartbeat |
| DomainLaws.MissedLaw | src/kernel/framework/barrier/manager.rs:111-158 | an overdue heartbeat counts as a failure; the first two lead to a rollback if the wait is over, from the third on the tick escalates and nothing is rolled back |
| DomainLaws.HeartbeatRenews | src/kernel/framework/barrier/domain.rs:282-313 | after a heartbeat no tick within the limit finds the domain overdue |
| DomainLaws.RollbackLaw | src/kernel/framework/barrier/manager.rs:231-272 | a granted rollback leaves an active domain without failures and with all rights, whose log is at the domain's generation and holds exactly the entries older than the target, with at most 128 of these |
| DomainLaws.BootLaw | src/kernel/framework/barrier/manager.rs:178-191 | the boot check relabels a domain and clears its fingerprint if and only if one is stored and there are three or more failures; all else stays |
| DomainLaws.PersistLaw | src/kernel/framework/barrier/domain.rs:326-331 | a stored fingerprint makes the next attempt with it a refused one; zero is not stored |
| DomainLaws.FreshLaw | src/kernel/framework/barrier/domain.rs:54-92 | the numbers of a new domain: barrier interval and first barrier at 100, eight slots each, exactly the rights 0 to 63 |
| DomainSpec.RollbacksTakeTime | src/kernel/framework/barrier/domain.rs:107-140 | k further rollbacks take at least 100 k ticks |
| DomainSpec.RollbacksSpan | src/kernel/framework/barrier/domain.rs:107-140 | k successful rollbacks of any run, counted from any of them, span at least 100 (k - 1) ticks |
| DomainSpec.SecondAttemptQuarantines | src/kernel/framework/barrier/domain.rs:115-123 | a second attempt with the same non-zero fingerprint is refused and quarantines |
| DomainSpec.AttemptProgress | src/kernel/framework/barrier/domain.rs:107-140 | what an attempt does to marks, quarantine, counts and the next grant |
| DomainSpec.LadderRights | src/kernel/framework/barrier/domain.rs:142-163 | which rights each failure count below quarantine takes away |
| DomainSpec.GrantForgives | src/kernel/framework/barrier/manager.rs:257-258 | a granted rollback ends with no failures, all rights and an active domain |
| DomainSpec.RightsNeverReduced | src/kernel/framework/barrier/manager.rs:96-330 | over every run of cascades, ticks, boot checks, records, heartbeats and new dependencies a domain keeps all its rights, because each granted attempt is forgiven at once |
| DomainSpec.FreshKeepsRights | src/kernel/framework/barrier/domain.rs:54-92 | a new domain keeps all 64 rights over every such run |
| DomainSpec.RunInStep | src/kernel/framework/barrier/domain.rs:231-244 | over every run of a domain there are as many barriers as generations and the ring holds the last eight |
| DomainSpec.RingReachesEight | src/kernel/framework/barrier/domain.rs:246-255 | over every run, a rollback `depth` barriers back aims at that barrier's generation if and only if depth is below eight, and at a newer one otherwise; past the first barrier it aims at the first if and only if there were at most eight |
| DomainSpec.TargetIs | src/kernel/framework/barrier/manager.rs:239-243 | the exact generation aimed at for every depth: depths count modulo eight |
| DomainSpec.VisitDepthWraps | src/kernel/framework/barrier/manager.rs:294-300 | a cascade's visit at depth eight or more does to domain and memory what the visit at the remainder does |
| DomainSpec.RingExample | src/kernel/framework/barrier/domain.rs:246-255 | a new domain after nine or more barriers: eight barriers back is the current generation |
| DomainSpec.AttemptWellFormed | src/kernel/framework/barrier/manager.rs:231-272 | an attempt keeps log, ring and dependents well formed |
| DomainSpec.TickWellFormed | src/kernel/framework/barrier/manager.rs:101-160 | a tick keeps log, ring and dependents well formed |
| DomainSpec.RecordWellFormed | src/kernel/framework/barrier/recoverable.rs:63-69 | recording, with or without bringing the log to the domain's generation first, keeps the domain well formed |
| DomainSpec.PopsSinceBarrier | src/kernel/framework/barrier/manager.rs:238-252 | a rollback at depth 0 pops something if and only if something was recorded since the last barrier |
| DomainSpec.BarrierHidesRecords | src/kernel/framework/barrier/manager.rs:103-131 | a tick that takes a barrier and then rolls back finds nothing to undo and leaves memory alone |
| DomainLaws.SyncedRecordIsPopped | src/kernel/framework/barrier/recoverable.rs:63-69 | a field recorded through a recoverable lock is popped by the next rollback at depth 0 |
| DomainLaws.StaleRecordStays | src/kernel/framework/barrier/api.rs:224-231 | a field recorded through the plain call while the log is behind the domain's generation is not |
| DomainSpec.AddedSlotHolds | src/kernel/framework/barrier/domain.rs:171-207 | the id is stored afterwards exactly when it was before or a slot was free, and no other id is lost |
| Domains.RecoveryDomain.constructor | src/kernel/framework/barrier/domain.rs:54-92 | every field of a new domain: active, all rights, no failures, no barrier, empty ring, slots and log |
| Domains.RecoveryDomain.TryRollback | src/kernel/framework/barrier/domain.rs:107-140 | refuse, quarantine, back off or grant, with every field updated; AttemptLaw says when and with which numbers |
| Domains.RecoveryDomain.ApplyDegradation | src/kernel/framework/barrier/domain.rs:142-163 | the rights and state for each failure count |
| Domains.RecoveryDomain.MarkAsRecovered | src/kernel/framework/barrier/domain.rs:165-169 | failures forgotten, rights restored |
| Domains.RecoveryDomain.PushBarrierSnapshot | src/kernel/framework/barrier/domain.rs:231-244 | one more barrier in the ring |
| Domains.RecoveryDomain.GetRollbackGeneration | src/kernel/framework/barrier/domain.rs:246-255 | the ring lookup with both saturating subtractions |
| Domains.RecoveryDomain.Rollback | src/kernel/framework/barrier/manager.rs:231-272 | log rolled back to the target generation, memory as that rollback leaves it, domain active and recovered |
| Domains.RecoveryDomain.AttemptRollback | src/kernel/framework/barrier/manager.rs:295-300 | attempt and, if granted, rollback: value, entries popped and memory |
| Domains.RecoveryDomain.RecordUndo | src/kernel/framework/barrier/recoverable.rs:63-69 | records a field, reporting where the kernel would panic for lack of room |
| Domains.RecoveryDomain.HeartbeatAt | src/kernel/framework/barrier/domain.rs:282-284 | the heartbeat is the tick |
| Domains.RecoveryDomain.CheckHealth | src/kernel/framework/barrier/domain.rs:302-313 | heartbeat check, arming the first heartbeat |
| Domains.RecoveryDomain.TickOnce | src/kernel/framework/barrier/manager.rs:102-159 | one domain's barrier, health check, rollback and quota reset, its memory effect, and whether it escalates |
| Domains.RecoveryDomain.CheckBootFingerprint | src/kernel/framework/barrier/manager.rs:178-191 | relabels a domain with a stored fingerprint and three failures as degraded |
| Domains.RecoveryDomain.PersistCrashFingerprint | src/kernel/framework/barrier/domain.rs:326-331 | stores a non-zero fingerprint |
| Domains.RecoveryDomain.AddDependedBy | src/kernel/framework/barrier/domain.rs:191-207 | true exactly when the id is stored afterwards |
| Domains.RecoveryDomain.AddDependency | src/kernel/framework/barrier/domain.rs:171-189 | always reports success, also when the slots are full and nothing is stored |
| Domains.FindSlot | src/kernel/framework/barrier/domain.rs:193-205 | the id's own slot, else the first empty one, else none |
| Managers.DirectMapAgreesWithScan | src/kernel/framework/barrier/manager.rs:165-173 | the direct map holds a domain exactly when a scan would find it |
| Managers.TablesAfterRegister | src/kernel/framework/barrier/manager.rs:82-94 | registering keeps slots, direct map and live domains consistent |
| Managers.TablesAfterUnregister | src/kernel/framework/barrier/api.rs:77-93 | unregistering keeps them consistent |
| Managers.LiveFits | src/kernel/framework/barrier/manager.rs:82-86 | there are never more live domains than slots |
| Managers.RecoveryManager.Register | src/kernel/framework/barrier/manager.rs:82-94 | appends a domain in the next slot and, for a small id, in the direct map, unless 32 slots were ever used |
| Managers.RecoveryManager.Unregister | src/kernel/framework/barrier/api.rs:77-93 | empties exactly that domain's slot and direct-map entry, or changes nothing; slots are not reused |
| Managers.RecoveryManager.Find | src/kernel/framework/barrier/manager.rs:165-173 | the live domain with that id, or none, for small and large ids alike |
| Managers.RecoveryManager.FullQueueHasAll | src/kernel/framework/barrier/manager.rs:305-313 | a full queue already holds every live domain, so the overflow break drops nothing |
| Managers.RecoveryManager.EnqueueDependents | src/kernel/framework/barrier/manager.rs:302-324 | the queue grows by the live dependents not in it yet, in slot order, in spite of the overflow break |
| Managers.RecoveryManager.CascadeTurn | src/kernel/framework/barrier/manager.rs:290-327 | one turn keeps the breadth-first queue, the visited flags, and the value of domains and memory |
| Managers.RecoveryManager.CascadeRollback | src/kernel/framework/barrier/manager.rs:274-330 | visits exactly the domains reachable through granted attempts, each once, in the order of the breadth-first queue; memory is the fold of their rollbacks in that order; a rollback is reported if and only if a reached domain is granted one with entries of its current generation |
| CascadeSpec.ExploredAll | src/kernel/framework/barrier/manager.rs:290-327 | an exhausted queue holds exactly the reachable domains |
| CascadeSpec.TurnFacts | src/kernel/framework/barrier/manager.rs:302-324 | one turn appends exactly the successors of the domain at the head that are not queued yet |
| CascadeSpec.TurnInSlotOrder | src/kernel/framework/barrier/manager.rs:302-324 | the domains a turn appends come in the order of the slots that first name them |
| CascadeSpec.CascadeStartsAtRoot | src/kernel/framework/barrier/manager.rs:282-288 | the root is visited first and every turn's queue is a prefix of the order |
| CascadeSpec.CascadeIsBreadthFirst | src/kernel/framework/barrier/manager.rs:290-327 | of two domains the one visited first has a predecessor visited no later than any predecessor of the other |
| CascadeSpec.CascadeDeterminate | src/kernel/framework/barrier/manager.rs:274-330 | order, count, domains and memory after a cascade are determined by its arguments and what it finds |
| CascadeSpec.VisitedOnce | src/kernel/framework/barrier/manager.rs:294-300 | a visited domain changes by its own single attempt only |
| CascadeSpec.NotVisited | src/kernel/framework/barrier/manager.rs:290-327 | an unvisited domain does not change |
| CascadeSpec.CascadeAt | src/kernel/framework/barrier/manager.rs:274-330 | each domain is attempted once if reachable and left alone otherwise |
| CascadeSpec.CascadeMoves | src/kernel/framework/barrier/manager.rs:274-330 | a cascade is at most one operation of each domain and rolls back none that is out |
| CascadeSpec.CascadeSucceedsIff | src/kernel/framework/barrier/manager.rs:295-300 | the count returned is positive if and only if some reached domain is granted a rollback and has entries to undo |
| CascadeSpec.CascadeCounts | src/kernel/framework/barrier/manager.rs:274-330 | the count returned is the number of turns that popped entries, and each visit rolls back as many barriers as there were such turns before it |
| CascadeSpec.CascadeShrinksLogs | src/kernel/framework/barrier/manager.rs:274-330 | no log grows in a cascade, and a positive count means some log got shorter |
| CascadeSpec.IdleCascadeKeepsMemory | src/kernel/framework/barrier/manager.rs:295-300 | a cascade that reports no rollback leaves memory as it was |
| CascadeSpec.CascadeMemoryAt | src/kernel/framework/barrier/manager.rs:274-330 | bytes no reached domain records do not change; where domains record different bytes, each reached domain's bytes end as its own rollback alone leaves them |
| CascadeSpec.AddDepLinks | src/kernel/framework/barrier/api.rs:245-257 | after add_dep the cascade's graph has an edge from the dependency to the domain if and only if the dependency is granted a rollback and the domain was among its dependents before or a slot was free |
| CascadeSpec.CascadeIsSystemStep | src/kernel/framework/barrier/manager.rs:274-330 | a cascade is a step of the whole system |
| CascadeSpec.SystemRunProjects | src/kernel/framework/barrier/manager.rs:82-330 | any run of registrations, removals, cascades, ticks, boot checks, records, heartbeats and new dependencies is, for each domain that stays registered, a run of its own operations |
| CascadeSpec.SystemRingInStep | src/kernel/framework/barrier/manager.rs:103-107 | through any such run a domain's ring holds its last eight barriers |
| CascadeSpec.SystemQuarantineIsFinal | src/kernel/framework/barrier/manager.rs:82-330 | past five failures no such run rolls the domain back, lowers its failures or pops an entry |
| CascadeSpec.SystemRollbacksTakeTime | src/kernel/framework/barrier/manager.rs:82-330 | in every such run k further rollbacks of a domain take at least 100 k ticks |
| Managers.RecoveryManager.TickAll | src/kernel/framework/barrier/manager.rs:96-161 | domains tick in slot order up to and including the first that escalates; memory is the fold of their rollbacks in slot order |
| Managers.RecoveryManager.CheckBootFingerprints | src/kernel/framework/barrier/manager.rs:175-193 | every live domain gets exactly the boot check; memory does not change |
| Managers.RecoveryManager.RecordUndo | src/kernel/framework/barrier/api.rs:224-231 | records for a known id, changing that domain only and no memory |
| Managers.RecoveryManager.Heartbeat | src/kernel/framework/barrier/domain.rs:282-284 | one domain's heartbeat, changing nothing else |
| Managers.RecoveryManager.AddDep | src/kernel/framework/barrier/api.rs:245-257 | -1 for an unknown id; else the dependency and, if it is registered, the dependent are stored where slots are free |
| Api.Fingerprint | src/kernel/framework/barrier/api.rs:136-146 | djb2 of the message up to its NUL, in 64-bit arithmetic |
| Api.Djb2Extends | src/kernel/framework/barrier/api.rs:136-146 | one more character multiplies by 33 and adds it modulo 2 to the 64, and nothing after a NUL counts |
| Api.RootListAt | src/kernel/framework/barrier/api.rs:148-167 | the located domain is the first root tried and the domain of slot i comes after those of earlier slots |
| Api.CascadeGrants | src/kernel/framework/barrier/api.rs:153-167 | overlapping cascades at one tick never grant a domain twice |
| Api.CascadeMarks | src/kernel/framework/barrier/api.rs:153-167 | with a non-zero fingerprint marks stay, and a second visit to a marked root puts it out |
| Api.SuccessPops | src/kernel/framework/barrier/api.rs:153-173 | a successful recovery made some domain's log shorter, in a cascade that reached a domain with entries to undo |
| Api.FailurePopsNothing | src/kernel/framework/barrier/api.rs:164-176 | in a failed recovery no domain that any of its cascades reached was granted a rollback with entries to undo |
| Api.FailureKeepsMemory | src/kernel/framework/barrier/api.rs:164-176 | a failed recovery leaves memory exactly as it was |
| Api.Recovery.RunCascades | src/kernel/framework/barrier/api.rs:148-176 | one cascade per root, the located one first and then the slots in order, up to the first that rolls something back; success pops entries of some domain; failure means every root was tried in vain and memory is unchanged |
| Api.Recovery.TryRecover | src/kernel/framework/barrier/api.rs:119-177 | all four return codes with their flag effects; 0 exactly when a cascade rolled something back, with the rounds, domains and memory it went through; at most one granted rollback per domain; the state left by a failure |
| RecoveryOrder.HasDependency | src/kernel/framework/barrier/recovery.rs:127-135 | membership in the dependencies of the first entry with the id |
| RecoveryOrder.Walk | src/kernel/framework/barrier/recovery.rs:145-173 | the stack walk ends on every graph with exactly what is reachable, depth first and with nothing outstanding, or panics on an id without a flag |
| RecoveryOrder.FlagsFitIff | src/kernel/framework/barrier/recovery.rs:142 | with unique ids every id has a flag if and only if at most 64 domains are registered |
| RecoveryOrder.OrderFits | src/kernel/framework/barrier/recovery.rs:147-173 | the order never outgrows the registry, which bounds the walk on cycles |
| RecoveryOrder.WalkEnd | src/kernel/framework/barrier/recovery.rs:147-173 | an empty stack means the order holds exactly what is reachable |
| RecoveryOrder.NextDomain | src/kernel/framework/barrier/recovery.rs:147-173 | the next domain of the walk is the last-listed registered unvisited dependency of the latest visited domain that has one |
| RecoveryOrder.DepthFirstUnique | src/kernel/framework/barrier/recovery.rs:147-173 | only one order of a registry and root is depth first with nothing outstanding |
| RecoveryOrder.DependentsHold | src/kernel/framework/barrier/recovery.rs:175-183 | the second loop appends exactly the unreached direct dependents |
| RecoveryOrder.DependentsInOrder | src/kernel/framework/barrier/recovery.rs:175-183 | the dependents are appended in the order of their registration |
| RecoveryOrder.ComputeRecoveryOrder | src/kernel/framework/barrier/recovery.rs:137-186 | panics if and only if some registered id has no flag; else the depth-first order from the root, which is unique, of exactly the transitive registered dependencies, then the direct dependents, without duplicates |
| RecoveryOrder.CascadeRecover | src/kernel/framework/barrier/recovery.rs:188-204 | restores the domains of that order one by one, forward, and counts them, or panics with nothing restored |
| RecoveryOrder.RootBeforeItsDependencies | src/kernel/framework/barrier/recovery.rs:6-8 | an order that starts with a root and contains one of its dependencies is not dependency-first |
| RecoveryOrder.DependenciesFirstIff | src/kernel/framework/barrier/recovery.rs:137-186 | the order is dependency-first if and only if the root has no other dependency and its dependents were registered in dependency order |
| RecoveryOrder.OutOfOrderExample | src/kernel/framework/barrier/recovery.rs:137-186 | two domains of which the root needs the other: its dependency comes too late |
| RecoveryOrder.RecoveryRegistry.Register | src/kernel/framework/barrier/recovery.rs:83-115 | the id chosen, the registry afterwards, and when ids stay unique |
| RecoveryOrder.RegisteredIds | src/kernel/framework/barrier/recovery.rs:83-115 | after any requests exactly the preferred ids and the automatic ones handed out are registered |
| RecoveryOrder.IdsUniqueIff | src/kernel/framework/barrier/recovery.rs:83-115 | over every run of requests ids are unique if and only if no automatic id was preferred before it is handed out |
| RecoveryOrder.ClashExample | src/kernel/framework/barrier/recovery.rs:95-104 | id 16 preferred once and then handed out |
| Composites.BlockLayer.Write | src/kernel/framework/chitin/mod.rs:511-531 | table checks, driver answer, and the data or torn bytes left on the sector |
| Composites.BlockLayer.Read | src/kernel/framework/chitin/mod.rs:488-508 | table checks, driver answer, and the sector in the buffer on success |
| CompositeSpec.CodeIs | src/kernel/framework/chitin/mod.rs:488-531 | the error number of every transfer: -5 without a block device, -16 not ready, -38 without a driver, the driver's own, -22 past its end, and 0 otherwise |
| CompositeSpec.TotalSectorsIs | src/kernel/framework/chitin/mod.rs:554-568 | a drive has a size exactly when it is a block device with a driver and a medium |
| Composites.StripeSectors | src/kernel/framework/chitin/composite.rs:92-93 | the stripe is the least number of sectors that holds the size, and at least one |
| Composites.Smallest | src/kernel/framework/chitin/composite.rs:98-126 | the least usable child size, or none exactly when a child is too small |
| Composites.TooSmallIff | src/kernel/framework/chitin/composite.rs:98-126 | a child is refused exactly when it could contribute no sector |
| Composites.UsableIsMost | src/kernel/framework/chitin/composite.rs:98-112 | a child contributes the most whole stripes it holds |
| Composites.Plan | src/kernel/framework/chitin/composite.rs:84-136 | accepts exactly one to eight large enough children whose total fits 64 bits, with the geometry they give |
| Composites.PlannedFits | src/kernel/framework/chitin/composite.rs:98-126 | every child is as large as its share; a mirror or a stripe set in table order is fully backed |
| Composites.PlanIsLargest | src/kernel/framework/chitin/composite.rs:98-126 | no device of the same kind, children and stripe whose shares fit the children is larger |
| Composites.Create | src/kernel/framework/chitin/composite.rs:84-136 | a device exactly when planning accepts, with that geometry and a zero round-robin counter |
| CompositeSpec.UnmapMap | src/kernel/framework/chitin/composite.rs:145-152 | the RAID0 map has a left inverse and a child index in range |
| CompositeSpec.MapUnmap | src/kernel/framework/chitin/composite.rs:145-152 | and it is a right inverse |
| CompositeSpec.MapInRange | src/kernel/framework/chitin/composite.rs:145-152 | a logical sector is below the total exactly when its place is below the share of a child |
| CompositeSpec.MapIsBijection | src/kernel/framework/chitin/composite.rs:145-152 | the map is a bijection from the logical space onto child index times share |
| CompositeSpec.StripesRotate | src/kernel/framework/chitin/composite.rs:145-152 | sectors of a stripe follow each other on one child; the next stripe is at the same place of the next child, or one stripe further on the first |
| CompositeSpec.PlacesApart | src/kernel/framework/chitin/composite.rs:145-247 | different logical sectors share no place, striped or mirrored |
| CompositeSpec.WritePlacesFacts | src/kernel/framework/chitin/composite.rs:236-245 | writing a sector touches its places only, and on success all of them hold the data |
| CompositeSpec.WritePlacesCode | src/kernel/framework/chitin/composite.rs:239-244 | it succeeds exactly when no place refuses |
| CompositeSpec.WriteSectorsMeets | src/kernel/framework/chitin/composite.rs:210-249 | sectors before the failing one hold their data, only the failing one is torn, the rest is as before |
| CompositeSpec.WriteSucceedsIff | src/kernel/framework/chitin/composite.rs:210-249 | a write returns 0 if and only if it has a whole sector of 512 bytes, ends at or before the total, and no place of any of its sectors refuses; a request without a sector or past the end gets -22 and changes nothing |
| CompositeSpec.RunIsFlatDisk | src/kernel/framework/chitin/composite.rs:158-249 | over every run, failures included, each sector holds its last written data on all its places, or is untouched, or its last write failed on it |
| CompositeSpec.RunLeavesRestAlone | src/kernel/framework/chitin/composite.rs:210-249 | disk sectors outside the logical space are never written |
| CompositeSpec.SuccessTearsNothing | src/kernel/framework/chitin/composite.rs:210-249 | a run of successful writes leaves no torn sector |
| CompositeSpec.SuccessMarksLastWrite | src/kernel/framework/chitin/composite.rs:210-249 | after successful writes each sector carries the last data asked for, read off the calls alone |
| CompositeSpec.SuccessIsFlatArray | src/kernel/framework/chitin/composite.rs:210-249 | a run of successful writes is the flat array in which every write takes effect in order |
| CompositeSpec.ReadReturnsLastWrite | src/kernel/framework/chitin/composite.rs:158-206 | whatever child serves it, a sector read after a run is the last write to it |
| CompositeSpec.RunKeepsAgreement | src/kernel/framework/chitin/composite.rs:234-247 | mirrors stop agreeing on a sector only if the last write to touch it failed there |
| CompositeSpec.ReadIsDeterminate | src/kernel/framework/chitin/composite.rs:182-204 | where mirrors agree a successful read does not depend on the counter or on which children fail |
| CompositeSpec.Raid0BackedIff | src/kernel/framework/chitin/composite.rs:170-172 | the striped space is backed if and only if the first table entries are large enough |
| Composites.Raid0IgnoresDriveNumbers | src/kernel/framework/chitin/composite.rs:171-172 | a stripe set over drive 1 alone is accepted although drive 0 is empty, lives there, is not backed and fails every write |
| CompositeSpec.StripeSetsShareIff | src/kernel/framework/chitin/composite.rs:145-172 | two stripe sets share a sector's place if and only if it lies on the first table entries and inside the shares of both |
| CompositeSpec.StripeSetsCollide | src/kernel/framework/chitin/composite.rs:223-224 | so a write through one stripe set is what another one, made of other drives, then holds |
| Composites.CompositeBlockDevice.WriteSector | src/kernel/framework/chitin/composite.rs:220-247 | the striped place or the mirrors in turn, stopping at the first error |
| Composites.CompositeBlockDevice.BlkWrite | src/kernel/framework/chitin/composite.rs:210-249 | 0 exactly under that condition and -22 exactly for the bad arguments, in numbers; the written prefix, the torn sector and everything else |
| Composites.CompositeBlockDevice.ReadMirrored | src/kernel/framework/chitin/composite.rs:187-202 | succeeds exactly when some child answers, with the data of the first that does, starting at the counter's child and going round; otherwise an I/O error |
| Composites.CompositeBlockDevice.ReadSector | src/kernel/framework/chitin/composite.rs:168-204 | the sector from its striped place or from the first child in turn that answers, or the error code; the counter advances by one modulo 2 to the 32 for mirrors |
| Composites.CompositeBlockDevice.BlkRead | src/kernel/framework/chitin/composite.rs:158-206 | 0 exactly when there is a whole sector of 512 bytes, the request ends at or before the total and some place of each sector answers; -22 for bad arguments; otherwise the served prefix, the error of the first unserved sector, and untouched trailing bytes |
| Composites.WriteThenRead | src/kernel/framework/chitin/composite.rs:158-249 | a read of what was just written successfully gives the same bytes, whichever children answer |
| DevTrees.StepKeepsWellFormed | src/kernel/framework/chitin/devtree.rs:145-189 | initialisation and creation keep parent links and child lists mutual, ids unique, parents below children |
| DevTrees.RunIsWellFormed | src/kernel/framework/chitin/devtree.rs:145-189 | so does every run, in any order |
| DevTrees.InitLaw | src/kernel/framework/chitin/devtree.rs:145-153 | initialising adds one parentless childless node with the next id, makes it the root and changes no other node |
| DevTrees.CreateLaw | src/kernel/framework/chitin/devtree.rs:160-189 | the new node is a childless child of the parent asked for, appended to that parent's children, with every other node as before; of the root if no parent is asked for; alone if there is no root; none for an unknown parent |
| DevTrees.SiblingsApart | src/kernel/framework/chitin/devtree.rs:308-315 | the subtrees of two siblings share no node |
| DevTrees.WalkNodeVisits | src/kernel/framework/chitin/devtree.rs:308-315 | the recursion visits exactly the descendants, each once, each after its parent |
| DevTrees.SiblingsInOrder | src/kernel/framework/chitin/devtree.rs:308-315 | everything under an earlier child is visited before everything under a later one |
| DevTrees.WalkIsPreOrder | src/kernel/framework/chitin/devtree.rs:294-318 | the same anywhere under the root, which with parents first fixes the walk |
| DevTrees.VisitsAllIff | src/kernel/framework/chitin/devtree.rs:294-318 | the walk is complete if and only if the root is the only parentless node |
| DevTrees.OnlyRootStep | src/kernel/framework/chitin/devtree.rs:145-189 | which operations keep the root the only parentless node |
| DevTrees.RunWalksAllIff | src/kernel/framework/chitin/devtree.rs:145-318 | over every run: no node twice, and all nodes if and only if there is at most one initialisation and no parentless creation before it |
| DevTrees.OrphanExample | src/kernel/framework/chitin/devtree.rs:178-186 | a node created before the initialisation is missed by the walk |
| DevTrees.DeviceTree.Init | src/kernel/framework/chitin/devtree.rs:145-153 | a new root, every other node as before |
| DevTrees.DeviceTree.CreateNode | src/kernel/framework/chitin/devtree.rs:160-189 | the new node under exactly the parent asked for, or the root, last among its children, every other node as before; None for an unknown parent with the id consumed |
| DevTrees.DeviceTree.WalkChildren | src/kernel/framework/chitin/devtree.rs:308-315 | appends the specified visit order and terminates |
| DevTrees.DeviceTree.Walk | src/kernel/framework/chitin/devtree.rs:294-318 | no repeats, parents first, exactly the descendants of the root |
| Snapshots.AscendingIsRanked | src/kernel/framework/barrier/snapshot.rs:205-226 | indices in strict order of priority and slot are a permutation of all slots |
| Snapshots.RankedUnique | src/kernel/framework/barrier/snapshot.rs:205-226 | the restore order is unique |
| Snapshots.RestoreBringsBack | src/kernel/framework/barrier/snapshot.rs:104-121 | capture then restore puts every captured register of a device with a base back and changes no other address |
| Snapshots.SwapRemovedContents | src/kernel/framework/barrier/snapshot.rs:154-168 | unregistering removes exactly one entry and keeps all others |
| Snapshots.SwapRemovedAt | src/kernel/framework/barrier/snapshot.rs:154-168 | the last entry takes the removed one's slot and the others stay where they are |
| Snapshots.WritesOfAt | src/kernel/framework/barrier/snapshot.rs:112-121 | the k-th write of a device is its k-th register's value to base plus offset |
| Snapshots.WritesFollowOrder | src/kernel/framework/barrier/snapshot.rs:228-236 | the writes of a restore are those of its devices one after the other |
| Snapshots.DeviceSnapshotRegistry.Register | src/kernel/framework/barrier/snapshot.rs:145-152 | appends unless sixteen are registered; slots stay dense |
| Snapshots.DeviceSnapshotRegistry.Unregister | src/kernel/framework/barrier/snapshot.rs:154-168 | removes the first entry with the id by swapping in the last; slots stay dense |
| Snapshots.DeviceSnapshotRegistry.CaptureAllInit | src/kernel/framework/barrier/snapshot.rs:192-199 | every registered device holds the values just read |
| Snapshots.DeviceSnapshotRegistry.SinkIndex | src/kernel/framework/barrier/snapshot.rs:212-225 | one insertion keeps the sorted prefix in strict priority and slot order |
| Snapshots.DeviceSnapshotRegistry.SortIndices | src/kernel/framework/barrier/snapshot.rs:205-226 | the in-place insertion sort yields the stable permutation |
| Snapshots.DeviceSnapshotRegistry.RestoreAll | src/kernel/framework/barrier/snapshot.rs:201-238 | every device once in stable priority order, the writes it makes, and successes plus failures equal to the count |
| Snapshots.Restore | src/kernel/framework/barrier/snapshot.rs:112-121 | fails without a write when the base is 0, else writes every register in order |

## Left out

- Locks, atomics, memory ordering and interrupt context: every operation is one sequential step; the outcome of `try_lock` is a parameter. `compute_recovery_order` taking the registry lock a second time inside `has_dependency` is not modelled.
- Wrap-around of 64-bit sums (`start + npages`, `sector + n`, ticks, generations) and of 32-bit counters (failures, rollbacks, barrier tops, node ids); the round-robin counter, djb2 and FNV do wrap as coded.
- Capture, rollback, save, restore and reset callbacks, and all log output, including the rollback event log.
- Locating the crashed domain by address or message prefix: the located id is a parameter of the recovery call.
- CPU quota accounting other than the reset, process limits, and address ranges: counters without further effect on recovery.
- `recovery_domain_register` in `api.rs` registers a pool entry whose id stays 0; the manager is modelled with distinct live ids instead.
- The kernel's PMM, which the buddy code mirrors, `barrier/reset`, and the setters, lookups and properties of device tree nodes are not part of this model.
- Domains.RecoveryDomain.ApplyDegradation: the 64-bit capability mask is the set of its one-bits.
- Managers.RecoveryManager.Register: requires an id that no live domain has, because the source's direct map assumes it; the two tables are sequence fields instead of arrays.
- Managers.RecoveryManager.RecordUndo: requires a field inside the memory, which is one byte sequence, since the source takes raw pointers.
- Buddy.BuddyAllocator.UnreserveRange: requires a range that PushFreeRange can take, for the same reason.
- Buddy.BuddyAllocator.PushFreeRange: requires pages from 1 up to the node memory that are neither free nor handed out, because node address 0 is the sentinel.
- Composites.BlockLayer.Write: a driver's answer is a function of drive and sector that is fixed during one call; drives are not themselves composites.
- Composites.CompositeBlockDevice.BlkWrite: takes the buffer as a value, since the source only reads it.
- Snapshots.DeviceSnapshotRegistry.RestoreAll: returns the register writes as a list instead of calling the write function.
