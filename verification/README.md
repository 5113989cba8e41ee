# nixvm, verified

A Dafny model of the stateful core of nixvm, a Linux kernel in userspace, with proofs that
its fast or incremental structures agree with their simple meaning over every run.

`dafny verify dfyconfig.toml` checks everything.

## What is modelled

Each component has its meaning as functions on values, the object that changes in place as
a class whose methods are proved against those functions, and lemmas and run theorems about
the functions. The `…Laws` modules state what each call answers and leaves, with the
numbers of the ABI written out, in terms a caller can observe.

- **cgroup v2** (`CgroupTree`, `CgroupShape`, `CgroupOps`, `CgroupClass`, `CgroupKernel`,
  `CgroupTasks`, `CgroupPaths`, `CgroupLaws`). Counters kept along ancestor chains, zombies moving up on
  `rmdir`, `pids.max`, the cached `frozen` flag of every task, printed paths. Ids are handed
  out increasingly, which makes every upward walk end.
- **Mount table** (`MountPaths`, `MountTable`, `MountPivot`, `MountDetach`, `MountCarry`,
  `MountBind`, `MountPropagation`, `MountGroups`, `MountLevels`, `MountWorklist`, `MountClear`,
  `MountLists`, `MountOutcomes`, `MountTableObject`, `MountKeep`, `MountCounts`, `MountRestore`,
  `MountBeneath`, `MountCopies`, `MountBelow`, `MountLaws`).
  Longest-prefix resolution under `pivot_root`, bind, lazy unmount and carrying; propagation
  to peers and slaves, the groups its copies get and how far they reach, and whether unmounting
  undoes mounting in every namespace. Paths are
  component lists; `MountPaths` proves that the string helpers are the list operations used.
- **Overlay** (`Overlay`, `OverlaySteps`, `OverlayRefinement`, `OverlayCopyUp`,
  `OverlayObject`, `OverlayLaws`). Upper layer, lower tree and whiteouts refine one plain map of paths.
- **TmpFs and Quota** (`Quota`, `TmpFs`, `TmpFsInvariant`, `TmpFsRename`, `TmpFsRuns`,
  `TmpFsLaws`, `TmpFsObject`). The flat map as a tree, hard links, exact charging, subtree rename; the
  quota as interleaved atomic steps of any number of threads.
- **File locks** (`FileLocks`, `FileLockLaws`). Record locks, description locks and `flock`, their wake-ups.
- **SHA-256** (`Sha256`, `Sha256Bits`, `Sha256Laws`, `Sha256Constants`). The buffered form
  against FIPS 180-4, whose functions and constants are stated by bits and by roots of primes.
- **Initial stack** (`InitialStack`, `StackLayout`, `StackObject`). The writer and the reader
  of the process stack of section 3.4.1 of the System V AMD64 psABI.

`Common`, `Sums`, `Paths` and `RelPaths` hold what several of them need.

## Where the code differs from what one would expect

The model follows the code. Each of these is a lemma with a concrete input beside one that
says exactly when it happens.

- A printed cgroup path leads to its cgroup, looked up or walked, if and only if every name
  on it is non-empty and has no slash; `mkdir` on the tree accepts others (`EmptyNameIsLost`,
  `LookupUndoesPathFrom`, `WalkFollowsPathFrom`).
- `migrate` corrupts the live counters if and only if an alive flag disagrees with the tree
  (`MigrateWithoutSync`, `MigrateExactIff`); the kernel calls `sync_exits` first, and then
  they agree (`MovingAgrees`).
- Closing a descriptor whose path no longer resolves drops the process's locks on every file
  (`UnresolvedCloseDropsOthers`, `CloseKeepsExactly`).
- A write to a deleted lower file of an overlay, or a change of its length, succeeds, and a
  later create fails and brings the old contents back (`DeletedFileComesBack`,
  `HiddenWriteIsRefused`, `DeletedFileComesBackCut`, `HiddenTruncateIsRefused`).
- A slave that is not shared, mounted at the very place something is being attached below,
  gets a copy of it although shared mounts there do not (`SlaveBeneathGetsCopy`,
  `SourceSlaveGetsCopy`), and keeps it when the original is unmounted
  (`SlaveBeneathKeepsCopy`, `UnmountUndoesMount`).
- The initial stack is checked against the whole reservation and written in the smaller
  window that is mapped (`LongArgumentFails`, `WindowDecides`).

## Model

| member | source | states |
|---|---|---|
| `Cgroups.ChainIsWithin` | src/fs/cgroupfs.rs:207-215 | the upward walk lists exactly the cgroups the start is within; ids never grow along it |
| `Cgroups.ChainDescends` | src/fs/cgroupfs.rs:207-215 | the walk lists no cgroup twice: ids strictly descend |
| `Cgroups.RechargedIsTwoCharges` | src/fs/cgroupfs.rs:311-318 | charging the old walk down and the new walk up nets out on shared ancestors |
| `Cgroups.AttachNewValid` | src/fs/cgroupfs.rs:293-301 | a new task keeps every counter below the root exact and the tree well formed |
| `Cgroups.ExitValid` | src/fs/cgroupfs.rs:323-340 | an exit keeps every counter exact |
| `Cgroups.ReleaseValid` | src/fs/cgroupfs.rs:343-350 | releasing a task, dead or still counted live, keeps every counter exact |
| `Cgroups.MoveTaskValid` | src/fs/cgroupfs.rs:355-379 | moving one task keeps every counter exact unless it is called dead while counted live |
| `CgroupOps.Migrated` | src/fs/cgroupfs.rs:355-379 | after a migrate the listed tasks are in the target and no other member has changed |
| `CgroupOps.MigrateDisagreeing` | src/fs/cgroupfs.rs:355-379 | a first wrong alive flag leaves some live counter wrong, whatever follows in the list |
| `CgroupOps.MigrateExactIff` | src/fs/cgroupfs.rs:355-379 | a migrate keeps every counter exact if and only if its alive flags agree with the tree |
| `CgroupShape.RmdirValid` | src/fs/cgroupfs.rs:550-584 | removing a cgroup, its zombies moving up, keeps every remaining counter exact |
| `CgroupShape.MkdirValid` | src/fs/cgroupfs.rs:516-547 | a new cgroup keeps the tree well formed and every counter exact |
| `CgroupShape.MkdirRespectsLimits` | src/fs/cgroupfs.rs:516-547 | a cgroup that could be made leaves every ancestor within its limits on descendants and depth |
| `CgroupLaws.RmdirAnswers` | src/fs/cgroupfs.rs:550-559 | a cgroup can be removed if and only if it is there, is not the root, is nobody's parent and no living task is in it, told by the tasks; else 2 or 16 |
| `CgroupLaws.RmdirLeaves` | src/fs/cgroupfs.rs:560-583 | then it is gone, each of its tasks is in the parent and dead, every other task and cgroup is as it was but for the parent's list of children |
| `CgroupLaws.MkdirAnswers` | src/fs/cgroupfs.rs:516-536 | a cgroup can be made if and only if its parent is there, nothing has the name, the name is allowed and no ancestor's limit on number or depth below it is reached; else 2, 17, 22 or 11 |
| `CgroupLaws.MkdirMakes` | src/fs/cgroupfs.rs:538-547 | the new cgroup has a number of its own, that name and owner, no limit and no task; nothing else changes |
| `CgroupShape.FreezeReaches` | src/fs/cgroupfs.rs:396-404 | setting a freeze flag changes the freezing of nothing outside the subtree |
| `CgroupLaws.FreezeSets` | src/fs/cgroupfs.rs:396-404 | a task is frozen after the write if and only if its cgroup is within one just frozen, or another cgroup above it is frozen |
| `CgroupOps.FirstFullIsNearest` | src/fs/cgroupfs.rs:277-289 | the walk of `can_fork` finds the nearest full cgroup, or none if none on the chain is full |
| `CgroupOps.ForkRespectsPidsMax` | src/fs/cgroupfs.rs:277-309 | after a successful fork every cgroup on the new task's chain is at or below its `pids.max` |
| `CgroupOps.RefusalIsNotedOnce` | src/fs/cgroupfs.rs:277-289 | a fork refused for `pids.max` changes exactly one `pids.events`, that of the nearest full cgroup |
| `CgroupOps.ForkValid` | src/fs/cgroupfs.rs:304-309 | a fork, granted or refused, keeps every counter exact |
| `CgroupLaws.LiveIsPopulated` | src/fs/cgroupfs.rs:311-340 | below the root a cgroup's live counter is positive if and only if a living task is in it or below, and its task counter is the number of tasks there |
| `CgroupLaws.AttachAnswers` | src/fs/cgroupfs.rs:265-272 | a cgroup that hands the controller down takes no task (16) if and only if a living task is in or below one of its children |
| `CgroupLaws.ForkAnswers` | src/fs/cgroupfs.rs:277-309 | a fork is refused with 11 if and only if some cgroup on the way up already has as many tasks as its `pids.max`; else 2, 16 or 0 |
| `CgroupLaws.ForkPuts` | src/fs/cgroupfs.rs:293-309 | a fork that succeeds makes the new task a living member of the cgroup and moves nobody |
| `CgroupObject.CgroupTree.constructor` | src/fs/cgroupfs.rs:170-192 | a new hierarchy holds the root alone and is valid |
| `CgroupObject.CgroupTree.ChainOf` | src/fs/cgroupfs.rs:207-215 | the loop returns the walk, and it holds exactly the cgroups the start is within |
| `CgroupObject.CgroupTree.CommonAncestor` | src/fs/cgroupfs.rs:225-232 | the result is above both cgroups and below every other common ancestor |
| `CgroupObject.CgroupTree.FrozenAt` | src/fs/cgroupfs.rs:235-240 | true exactly when the cgroup or an ancestor has freeze set |
| `CgroupObject.CgroupTree.Charge` | src/fs/cgroupfs.rs:311-318 | the loop adds to each cgroup of the walk and to no other |
| `CgroupObject.CgroupTree.AttachTask` | src/fs/cgroupfs.rs:293-301 | the whole new state, and whether the cgroup is frozen |
| `CgroupObject.CgroupTree.ExitTask` | src/fs/cgroupfs.rs:323-340 | the whole new state after an exit |
| `CgroupObject.CgroupTree.ReleaseTask` | src/fs/cgroupfs.rs:343-350 | the whole new state after a release |
| `CgroupObject.CgroupTree.MigrateTasks` | src/fs/cgroupfs.rs:355-379 | the loop performs the migrate of the whole list and reports the target's freezing |
| `CgroupObject.CgroupTree.SubtreeOf` | src/fs/cgroupfs.rs:383-394 | lists exactly, and once each, the cgroups whose walk contains the start |
| `CgroupObject.CgroupTree.SetFreeze` | src/fs/cgroupfs.rs:396-404 | changes one flag and says whether it changed |
| `CgroupObject.CgroupTree.ForkTask` | src/fs/cgroupfs.rs:304-309 | error number and whole new state of a fork, and whether the child starts frozen |
| `CgroupObject.CgroupTree.TryFork` | src/fs/cgroupfs.rs:277-289 | answers `EAGAIN` exactly when a cgroup on the chain is full, and then counts one event |
| `CgroupObject.CgroupTree.RemoveCgroup` | src/fs/cgroupfs.rs:550-584 | error number and whole new state of a removal |
| `CgroupObject.CgroupTree.MakeCgroup` | src/fs/cgroupfs.rs:516-547 | error number, new id and whole new state of a creation |
| `CgroupKernel.MovingAgrees` | src/kernel/cgroup.rs:202-231 | after `sync_exits` the alive flags handed to migrate agree with the tree |
| `CgroupKernel.MigrateWithoutSync` | src/fs/cgroupfs.rs:355-379 | a task counted live, listed as dead and moved to the root leaves its cgroup's live counter wrong |
| `CgroupKernel.MoveKeeps` | src/kernel/cgroup.rs:202-248 | moving a thread group keeps counters exact and every live task's frozen flag right |
| `CgroupKernel.FreezeKeeps` | src/kernel/cgroup.rs:275-299 | freezing or thawing a cgroup keeps every live task's frozen flag equal to its cgroup's freezing |
| `CgroupKernel.SyncKeeps` | src/kernel/cgroup.rs:40-48 | marking exits keeps the invariant, and afterwards everything counted live is alive |
| `CgroupKernel.StepKeeps` | src/kernel/cgroup.rs:53-66 | the check of a fork, the attach of the new task to a cgroup that is there, exit, reap, sync, move, freeze, mkdir, rmdir and setting any of the three limits all keep the kernel invariant |
| `CgroupKernel.EveryRun` | src/kernel/cgroup.rs:188-299 | in every state of every run in which an attach follows its check with no `rmdir` between: counters are exact, each live task's `frozen` equals "its cgroup or an ancestor is frozen", and no cgroup is called `..` |
| `CgroupKernel.AttachKeepsIff` | src/kernel/cgroup.rs:61-65 | the second half of a fork keeps counters and flags right if and only if the cgroup the first half allowed is still there |
| `CgroupKernel.AllowedIsThere` | src/kernel/mod.rs:4768-4807 | the cgroup a check allowed is there at the attach, whatever steps but an `rmdir` came between |
| `CgroupKernel.CheckedForkKeeps` | src/kernel/mod.rs:4768-4807 | in every run, after an allowed check and any steps but an `rmdir`, attaching the new task keeps counters and flags right |
| `CgroupTasks.TaskTable.SyncExits` | src/kernel/cgroup.rs:40-48 | exactly the live members without a living task are marked exited |
| `CgroupTasks.TaskTable.MoveProcess` | src/kernel/cgroup.rs:188-248 | error number and whole new kernel: no such task and nothing happens; refused and only exits are marked; granted and the target's whole process is moved |
| `CgroupLaws.MoveAnswers` | src/kernel/cgroup.rs:210-232 | what a write to `cgroup.procs` answers, told by the tasks: 2 outside the namespace, 95 for a thread, 16 for a populated child, 13 without ownership of the nearest common cgroup |
| `CgroupTasks.TaskTable.CheckMove` | src/kernel/cgroup.rs:210-232 | the error of the first check that refuses: namespace, thread, "no internal processes", ownership of the nearest cgroup above both ends |
| `CgroupTasks.TaskTable.FreezeCgroup` | src/kernel/cgroup.rs:275-299 | a write to `cgroup.freeze` that changes the flag is the freeze step of the kernel; any other does nothing |
| `CgroupTasks.TaskTable.KillCgroup` | src/kernel/cgroup.rs:252-272 | exactly the living tasks at or below the cgroup are doomed and woken |
| `CgroupPaths.LookUp` | src/fs/cgroupfs.rs:462-478 | the component loop computes the lookup |
| `CgroupPaths.PrintPath` | src/fs/cgroupfs.rs:440-459 | the two loops print the path by names and `..` |
| `CgroupPaths.LookupUndoesPathFrom` | src/fs/cgroupfs.rs:440-478 | looking up a printed path finds the cgroup if and only if every name on the way is non-empty and slash-free |
| `CgroupPaths.EmptyNameIsLost` | src/fs/cgroupfs.rs:516-547 | a cgroup made with the empty name cannot be looked up by its printed path |
| `CgroupPaths.WalkFollowsPathFrom` | src/fs/cgroupfs.rs:440-459 | between any two cgroups, walking the printed path with `..` as parent ends at the target if and only if every name on it is non-empty and has no slash |
| `CgroupPaths.MeetIsNearest` | src/fs/cgroupfs.rs:440-459 | the cgroup where the printed path turns down is below every other that both ends are within |
| `CgroupPaths.WalkStaysOut` | src/fs/cgroupfs.rs:440-459 | no walk over well-formed components enters a cgroup whose name is empty or has a slash |
| `Quotas.StepKeepsInv` | src/limits.rs:126-162 | every atomic step of any thread keeps `used` equal to charges plus forced charges minus releases |
| `Quotas.EveryInterleaving` | src/limits.rs:119-162 | under every interleaving the account is exact and only forced charges pass every ceiling there has been |
| `Quotas.ConstantLimitIsNeverExceeded` | src/limits.rs:126-162 | with a constant ceiling and no forced charge `used` never exceeds it and equals charges minus releases |
| `Quotas.StepIsStutterOrAtomic` | src/limits.rs:126-162 | each step changes nothing or is one whole charge that fitted, one whole release, or one forced charge |
| `FileLocking.ReadFlock` | src/kernel/fcntl.rs:171-214 | every accepted request covers a non-empty range; what is accepted and what it covers is in `FileLockLaws.DecodedAsks` |
| `FileLocking.ReadFlockCovers` | src/kernel/fcntl.rs:171-214 | the range covers exactly the bytes POSIX.1-2017 XSH `fcntl()` says, for zero, positive and negative lengths |
| `FileLockLaws.FaultIsBad` | src/kernel/fcntl.rs:171-214 | a request is refused with 22 for a wrong type or start, 75 where an end is out of range, 22 before the start of the file, and in no other case |
| `FileLockLaws.DecodedAsks` | src/kernel/fcntl.rs:171-214 | types 0, 1 and 2 are read, write and unlock, and the range covers exactly the bytes asked for |
| `FileLockLaws.AsksIsPosix` | src/kernel/fcntl.rs:171-214 | which are the bytes POSIX.1-2017 XSH `fcntl()` says |
| `FileLockLaws.FcntlAnswers` | src/kernel/fcntl.rs:611-705 | exactly when each command answers -9, -22, -75, -11 or 0 and when it waits: 9 for no file, type 0 on an unreadable or type 1 on an unwritable descriptor; 11 or waiting if another owner holds a byte asked for and one of the two writes |
| `FileLockLaws.FcntlSets` | src/kernel/fcntl.rs:692-711 | after a granted call the owner, process or description by the command, holds exactly those bytes for reading (type 0), for writing (1) or not at all (2); no other byte, owner or file changes |
| `FileLockLaws.ReportReadsBack` | src/kernel/fcntl.rs:667-684 | asking for what `F_GETLK` reports asks for that lock's bytes if and only if it does not end at the largest offset |
| `FileLockLaws.StepKeepsPids` | src/kernel/fcntl.rs:706-711 | over every call a lock carries its process's number, and -1 for a description |
| `FileLockLaws.FlockAnswers` | src/kernel/fcntl.rs:717-765 | exactly when each operation of `flock` (1, 2, 8, or with 4) answers -22, -9, -11 or 0 and when it waits |
| `FileLockLaws.FlockLeaves` | src/kernel/fcntl.rs:737-773 | after a granted call the description holds the file shared, alone or not at all as asked; no other holder or file changes |
| `FileLocking.SetRefinesByteMap` | src/kernel/fcntl.rs:109-138 | setting or clearing a range changes exactly those bytes for that owner, and nothing for anyone else |
| `FileLocking.RelockedValid` | src/kernel/fcntl.rs:109-138 | a lock granted without conflict keeps one owner's locks disjoint and writers alone |
| `FileLocking.CloseKeepsExactly` | src/kernel/fcntl.rs:235-260 | a close drops exactly the process's locks on that file, or on every file when the path no longer resolves |
| `FileLockLaws.CloseKeepsFlocks` | src/kernel/fcntl.rs:235-260 | a close drops the description's `flock` with its last descriptor, and no other |
| `FileLockLaws.ExitKeepsExactly` | src/kernel/fcntl.rs:263-272 | an exit drops the process's record locks on every file and nothing else |
| `FileLocking.UnresolvedCloseDropsOthers` | src/kernel/fcntl.rs:235-260 | closing a descriptor whose path is gone drops the process's lock on another file, which closing one that resolves keeps |
| `FileLocking.StepKeepsValid` | src/kernel/fcntl.rs:611-772 | every call keeps disjointness, exclusion, lone exclusive holders and no empty list behind a key |
| `FileLocking.ConflictIsAHeldByte` | src/kernel/fcntl.rs:90-105 | a request conflicts exactly when another owner holds a byte of its range in the way |
| `FileLocking.WriteLockRemovesNoConflict` | src/kernel/fcntl.rs:692-711 | setting a write lock never removes a conflict for anyone |
| `FileLocking.ExclusiveFlockRemovesNoConflict` | src/kernel/fcntl.rs:742-772 | granting an exclusive `flock` never removes a conflict for anyone |
| `FileLocking.NoLostWakeup` | src/kernel/fcntl.rs:692-772 | if any request conflicted before a step and not after, the step unparks all waiters |
| `FileLocking.EveryParkedTaskIsBlocked` | src/kernel/fcntl.rs:611-772 | after any run the lists are valid and every parked task's request still conflicts |
| `FileLocking.FileLocks.constructor` | src/kernel/fcntl.rs:60-88 | no locks |
| `FileLocking.FileLocks.Conflict` | src/kernel/fcntl.rs:90-105 | the first lock in the way, and none exactly when nothing conflicts |
| `FileLocking.FileLocks.Set` | src/kernel/fcntl.rs:109-138 | the whole new state: the file's list cut and relocked, no other list touched |
| `FileLocking.FileLocks.DropWhere` | src/kernel/fcntl.rs:141-166 | the whole new state, and true exactly when something was dropped |
| `FileLocking.FileLocks.FcntlLock` | src/kernel/fcntl.rs:611-711 | error number, wake-up and state of `F_GETLK`, `F_SETLK` and `F_SETLKW` are those of the step whose meaning `FcntlAnswers` and `FcntlSets` give; `F_GETLK` reports a lock in the way exactly on conflict |
| `FileLocking.FileLocks.SysFlock` | src/kernel/fcntl.rs:717-773 | error number, wake-up and state of `flock(2)`, conversions included, as `FlockAnswers` and `FlockLeaves` say |
| `FileLocking.FileLocks.ReleaseFdLocks` | src/kernel/fcntl.rs:235-260 | the state after a close and whether waiters are unparked |
| `FileLocking.FileLocks.ReleaseProcessLocks` | src/kernel/fcntl.rs:263-272 | the state after a process exit and whether waiters are unparked |
| `Sha256Digest.AddIsModular` | src/image.rs:430-475 | the word addition is addition modulo 2^32 |
| `Sha256Laws.ChBit` | src/image.rs:447 | Ch is, bit by bit, the second word where the first is set and the third where it is not |
| `Sha256Laws.MajBit` | src/image.rs:454 | Maj is set where two of the three words are |
| `Sha256Bits.BitsTell` | src/image.rs:430-475 | a word is its bits |
| `Sha256Bits.RotrBit` | src/image.rs:436-453 | a rotation right by n brings bit i + n, counted round, to place i |
| `Sha256Laws.BigSigma0Bit` | src/image.rs:453 | the bits at 2, 13 and 22 further on, exclusive-or |
| `Sha256Laws.BigSigma1Bit` | src/image.rs:446 | the bits at 6, 11 and 25 further on, exclusive-or |
| `Sha256Laws.SmallSigma0Bit` | src/image.rs:436 | the bits at 7 and 18 further on, and 3 with zeros shifted in |
| `Sha256Laws.SmallSigma1Bit` | src/image.rs:437 | the bits at 17 and 19 further on, and 10 with zeros shifted in |
| `Sha256Constants.RowIsPrimes` | src/image.rs:345-354 | the primes meant are all those up to 311, in order |
| `Sha256Constants.RowsAscend` | src/image.rs:345-354 | each row of them ascends within its bounds, so together they are the first 64 |
| `Sha256Constants.RoundConstants` | src/image.rs:345-354 | each round constant is the first 32 bits of the fraction of the cube root of its prime |
| `Sha256Constants.InitialWords` | src/image.rs:356-358 | each initial word is that of the square root of one of the first eight primes |
| `Sha256Laws.RoundUndone` | src/image.rs:444-465 | a round can be undone from its constant and schedule word, and every state comes from one |
| `Sha256Laws.RoundsKeepApart` | src/image.rs:444-465 | so different states stay different through any number of rounds |
| `Sha256Laws.ScheduleSpells` | src/image.rs:431-442 | the first sixteen words spell the block, and each later one gives back the one sixteen before |
| `Sha256Laws.CompressAdds` | src/image.rs:467-474 | a block adds the outcome of its 64 rounds to each word |
| `Sha256Laws.BytesSpellWord` | src/image.rs:432-434 | four bytes make the word they spell, most significant first, and come back from it |
| `Sha256Laws.LengthSpelled` | src/image.rs:410-419 | the eight bytes of the length field spell the length, most significant first |
| `Sha256Laws.PadSpelled` | src/image.rs:410-419 | the padded message is the message, 0x80, zeros and the number of bits, in as few whole blocks as hold it |
| `Sha256Laws.ReadOutSpells` | src/image.rs:422-426 | the digest is the eight words in order, each spelled in four bytes |
| `Sha256Digest.Parse` | src/image.rs:384-406 | a message of whole blocks is cut into blocks that join back to it |
| `Sha256Digest.ParseIsUnique` | src/image.rs:384-406 | there is only one such cutting |
| `Sha256Digest.ZeroPad` | src/image.rs:409-427 | the zero bytes bring the length to 56 modulo 64 |
| `Sha256Digest.ZeroPadIsLeast` | src/image.rs:409-427 | and no smaller number does, as section 5.1.1 of FIPS 180-4 asks |
| `Sha256Digest.PadFront` | src/image.rs:409-427 | what `finalize` feeds before the length is the `1` bit and that many zero bytes |
| `Sha256Digest.Expand` | src/image.rs:430-442 | the loop fills in the message schedule of section 6.2.2 of FIPS 180-4 |
| `Sha256Digest.RunRounds` | src/image.rs:444-465 | the loop is the 64 rounds on the working variables |
| `Sha256Digest.CompressBlock` | src/image.rs:430-475 | one block compressed into the chaining value |
| `Sha256Digest.Sha256.ProcessBlock` | src/image.rs:430-475 | the state is the fold over the blocks taken so far and this one |
| `Sha256Digest.Sha256.Absorb` | src/image.rs:384-406 | the bytes taken, in blocks and buffer, are those before and the new ones, in order |
| `Sha256Digest.Sha256.Update` | src/image.rs:379-382 | so does `update`, and the byte count is right modulo 2^64 |
| `Sha256Digest.Sha256.Finalize` | src/image.rs:409-427 | the digest of all bytes fed, the buffer empty at the end; `Sha256Laws` says what digest that is |
| `Sha256Digest.DigestOfParts` | src/image.rs:379-427 | for every way of cutting a message into updates the digest is the standard's one-shot digest |
| `Sha256Digest.Sha256OfParts` | src/image.rs:339-427 | the same with the standard's round constants |
| `TmpFsModel.RequireParent` | src/fs/tmpfs.rs:304-311 | success means the parent is there and a directory |
| `TmpFsModel.Grow` | src/fs/tmpfs.rs:224-245 | whatever the allocator does, the quota moves by exactly the capacity gained; a failure gains none |
| `TmpFsInvariant.AddKeeps` | src/fs/tmpfs.rs:482-539 | create, mkdir, mknod and symlink, quota failures included, keep tree, link counts and exact charges |
| `TmpFsInvariant.LinkKeeps` | src/fs/tmpfs.rs:697-713 | a hard link, quota failure included, keeps tree, link counts and exact charges |
| `TmpFsInvariant.RemoveKeeps` | src/fs/tmpfs.rs:249-262 | dropping an entry with nothing below keeps them too, freeing the inode with its last name |
| `TmpFsInvariant.WriteKeeps` | src/fs/tmpfs.rs:460-480 | a write keeps them, through capacity growth and failure |
| `TmpFsInvariant.TruncateKeeps` | src/fs/tmpfs.rs:571-595 | a truncate keeps them, through growth and shrinking |
| `TmpFsInvariant.SetXattrKeeps` | src/fs/tmpfs.rs:645-656 | setting or replacing an attribute keeps them |
| `TmpFsInvariant.RemoveXattrKeeps` | src/fs/tmpfs.rs:663-669 | removing an attribute keeps them |
| `TmpFsRename.MoveStep` | src/fs/tmpfs.rs:768-780 | one turn of the rename loop: the entry is still there, its new place is free, and the map is the next partial substitution |
| `TmpFsRename.MovedCounts` | src/fs/tmpfs.rs:768-780 | moving entries keeps every inode's name count and changes the cost by the change in name lengths |
| `TmpFsRename.RenamedIsTree` | src/fs/tmpfs.rs:757-780 | the renamed map is a tree again |
| `TmpFsRename.RenameKeeps` | src/fs/tmpfs.rs:715-782 | a rename, granted or refused, keeps tree, link counts and exact charges |
| `TmpFsRename.RenameIsSubstitution` | src/fs/tmpfs.rs:715-782 | a rename between two different entries is exactly prefix substitution: target holds the source, source is gone, the rest is untouched |
| `TmpFsRuns.StepKeeps` | src/fs/tmpfs.rs:460-782 | every operation keeps tree, link counts and exact charges |
| `TmpFsRuns.FailureChangesNothing` | src/fs/tmpfs.rs:460-782 | an operation that fails leaves quota, entries and inodes as they were |
| `TmpFsRuns.EveryRun` | src/fs/tmpfs.rs:352-362 | over every run, from creation and through every quota attached, the map is a tree, link counts count names, and `used` is what was there before plus all entry and inode costs |
| `TmpFsRuns.ParentIsEnough` | src/fs/tmpfs.rs:282-311 | in a tree the scan over all ancestors asks no more than a parent directory |
| `TmpFsRuns.WriteReadsBack` | src/fs/tmpfs.rs:417-480 | after a write every hard link of the file reads the bytes written, the old ones around them and zeros in a hole; every other name reads what it read |
| `TmpFsLaws.TruncateReadsBack` | src/fs/tmpfs.rs:571-595 | after a truncate every hard link of the file reads `len` bytes, the old ones and zeros after them; every other name reads what it read |
| `TmpFsLaws.TruncateAnswers` | src/fs/tmpfs.rs:571-595 | exactly when it answers 2, 21, 22, 27, 28 or 0: 28 if and only if neither the room there is nor the quota and the host have room for `len`; nothing but that file's bytes changes |
| `TmpFsLaws.WriteAnswers` | src/fs/tmpfs.rs:460-480 | the same of a write |
| `TmpFsLaws.WriteIsCharged` | src/fs/tmpfs.rs:224-246 | the quota moves by the room a file gains, and the room holds all its bytes |
| `TmpFsLaws.TruncateIsCharged` | src/fs/tmpfs.rs:571-595 | so it does on a truncate, down as well as up |
| `TmpFsLaws.RoomDoubles` | src/fs/tmpfs.rs:224-246 | room that has to grow doubles where the quota allows it and else is just enough |
| `TmpFsLaws.AddMakes` | src/fs/tmpfs.rs:482-503 | with a directory above, create, mkdir and symlink answer 17 if something is there, 28 if 256 bytes, name and target are not to be had, else 0; then a new, empty entry of that kind is there, it cost just that, and no other name has changed |
| `TmpFsLaws.MknodMakes` | src/fs/tmpfs.rs:505-539 | `mknod` makes a regular file or a FIFO by the type bits of its mode, and nothing else (1) |
| `TmpFsLaws.UnlinkRemoves` | src/fs/tmpfs.rs:541-551 | unlink answers 2, 21 or 0; then nothing is there and every other name, hard links included, shows what it showed |
| `TmpFsLaws.RmdirRemoves` | src/fs/tmpfs.rs:553-569 | rmdir answers 2, 20, 39 if and only if something is directly in it, or 0; the same then |
| `TmpFsLaws.LinkJoins` | src/fs/tmpfs.rs:697-713 | link answers 2, 1, 95, 17, 28 or 0; then both names are one file that reads as it did, and no other name has changed |
| `TmpFsLaws.SetXattrSets` | src/fs/tmpfs.rs:645-656 | the attribute has the value at every name of the file, other attributes and names are as they were; 2 or 28 exactly when |
| `TmpFsLaws.RemoveXattrRemoves` | src/fs/tmpfs.rs:663-669 | the attribute is gone at every name of the file, others stay; 2 or 61 exactly when |
| `TmpFsLaws.RenameAnswers` | src/fs/tmpfs.rs:715-760 | with a directory above the new name, exactly when a rename answers 2, 22, 20, 39, 21 or 0 |
| `TmpFsLaws.RenameToItself` | src/fs/tmpfs.rs:715-725 | renaming onto itself, or onto another name of the file, does nothing |
| `TmpFsLaws.RenameShows` | src/fs/tmpfs.rs:715-782 | after it the new name and all below show what the old ones did, nothing is left there, every other name shows what it showed |
| `TmpFsLaws.BlockedIsBarred` | src/fs/tmpfs.rs:282-300 | the scan of the ancestors stops if and only if something at or above the parent is no directory |
| `TmpFsLaws.WithoutParent` | src/fs/tmpfs.rs:282-311 | without a directory above every operation answers 20 in that case, 2 otherwise, and changes nothing |
| `TmpFsRuns.RenameBack` | src/fs/tmpfs.rs:715-782 | renaming to a free place and back gives the very state before, quota included |
| `TmpFsObject.SumXattrs` | src/fs/tmpfs.rs:75-80 | the loop adds up the cost of all attributes |
| `TmpFsObject.CostOf` | src/fs/tmpfs.rs:203-210 | what an entry costs |
| `TmpFsObject.TmpFs.constructor` | src/fs/tmpfs.rs:119-140 | an empty filesystem, valid |
| `TmpFsObject.TmpFs.Attach` | src/fs/tmpfs.rs:352-362 | everything stored is charged to the new quota, exactly |
| `TmpFsObject.TmpFs.AncestorBlocks` | src/fs/tmpfs.rs:282-299 | the component loop finds an ancestor that is no directory |
| `TmpFsObject.TmpFs.InsertNode` | src/fs/tmpfs.rs:213-219 | an entry is added and charged exactly when it fits |
| `TmpFsObject.TmpFs.AddEntry` | src/fs/tmpfs.rs:482-503 | error number and whole new state, the inode undone on a full quota |
| `TmpFsObject.TmpFs.MakeNode` | src/fs/tmpfs.rs:505-539 | the same for `mknod`, chosen by the type bits |
| `TmpFsObject.TmpFs.DropEntry` | src/fs/tmpfs.rs:249-262 | the whole new state without the entry |
| `TmpFsObject.TmpFs.UnlinkEntry` | src/fs/tmpfs.rs:541-551 | error number and whole new state of unlink |
| `TmpFsObject.TmpFs.RemoveDir` | src/fs/tmpfs.rs:553-569 | error number and whole new state of rmdir |
| `TmpFsObject.TmpFs.HardLink` | src/fs/tmpfs.rs:697-713 | error number and whole new state of link |
| `TmpFsObject.TmpFs.GrowFile` | src/fs/tmpfs.rs:224-245 | double, exact fit, or failure that leaves everything as it was |
| `TmpFsObject.TmpFs.Write` | src/fs/tmpfs.rs:460-480 | error number and whole new state of a write |
| `TmpFsObject.TmpFs.SetLength` | src/fs/tmpfs.rs:571-595 | error number and whole new state of a truncate |
| `TmpFsObject.TmpFs.PutXattr` | src/fs/tmpfs.rs:645-656 | error number and whole new state of setxattr |
| `TmpFsObject.TmpFs.DropXattr` | src/fs/tmpfs.rs:663-669 | error number and whole new state of removexattr |
| `TmpFsObject.TmpFs.MoveKeys` | src/fs/tmpfs.rs:761-780 | the loop over the keys, in any order, is the whole prefix substitution and keeps the charges exact |
| `TmpFsObject.TmpFs.RenameEntry` | src/fs/tmpfs.rs:715-782 | error number and whole new state of a rename |
| `OverlayModel.EmptiedIsHidden` | src/fs/overlay.rs:50-62 | below a directory whose lower children have their own whiteouts no lower entry shows |
| `OverlayModel.ViewIsTree` | src/fs/overlay.rs:215-223 | every visible entry is in a visible directory |
| `OverlaySteps.PullKeeps` | src/fs/overlay.rs:88-125 | placing copies of visible lower entries in the upper layer changes nothing visible and keeps the invariant |
| `OverlaySteps.PutKeeps` | src/fs/overlay.rs:262-278 | an entry put in the upper layer changes the view there and nowhere else, also over a deleted lower directory |
| `OverlaySteps.HideKeeps` | src/fs/overlay.rs:289-312 | a whiteout takes exactly that entry out of the view |
| `OverlayCopyUp.PartStep` | src/fs/overlay.rs:103-110 | copying up one more child of a directory brings exactly what is visible at or below it |
| `OverlayRefinement.CopyUpKeeps` | src/fs/overlay.rs:92-125 | copy-up, of a file or a whole directory, never changes the view |
| `OverlayRefinement.ListingIsView` | src/fs/overlay.rs:236-255 | `readdir` lists exactly the visible entries of the directory |
| `OverlayRefinement.AddAgrees` | src/fs/overlay.rs:262-278 | create, mkdir and symlink do to the view what they do to a plain map |
| `OverlayRefinement.WriteAgrees` | src/fs/overlay.rs:257-260 | so does a write |
| `OverlayRefinement.TruncateAgrees` | src/fs/overlay.rs:314-317 | so does a truncate |
| `OverlayRefinement.UnlinkAgrees` | src/fs/overlay.rs:289-298 | so does unlink |
| `OverlayRefinement.RmdirAgrees` | src/fs/overlay.rs:300-312 | so does rmdir, refused exactly when an entry below is visible |
| `OverlayRefinement.RenameAgrees` | src/fs/overlay.rs:436-486 | so does renaming a file or symlink |
| `OverlayRefinement.EveryRun` | src/fs/overlay.rs:215-317 | over every run the merged view, and the error number of every call, are those of the plain map given the same operations |
| `OverlayLaws.AddShows` | src/fs/overlay.rs:262-278 | create, mkdir and symlink, seen in the merged view: 17 if something is in sight, else the item is and nothing else changes |
| `OverlayLaws.WriteShows` | src/fs/overlay.rs:257-260 | a write, byte by byte, in the merged view; 21, 27 or 0 |
| `OverlayLaws.TruncateShows` | src/fs/overlay.rs:314-317 | a truncate, byte by byte; 21, 22, 27 or 0 |
| `OverlayLaws.UnlinkShows` | src/fs/overlay.rs:289-298 | unlink takes exactly that name out of sight; 2, 21 or 0 |
| `OverlayLaws.RmdirShows` | src/fs/overlay.rs:300-312 | rmdir the same, 39 if and only if something in sight is directly in it |
| `OverlayLaws.RenameShows` | src/fs/overlay.rs:436-486 | a rename shows at the new name what the old one showed, nothing at the old; 2, 21 or 0 |
| `OverlayRefinement.FreshShowsLower` | src/fs/overlay.rs:41-47 | a fresh overlay shows its lower tree |
| `OverlayRefinement.HiddenWriteIsRefused` | src/fs/overlay.rs:257-260 | in a visible directory a write to a missing name is refused and harmless if and only if the lower layer has nothing there |
| `OverlayRefinement.DeletedFileComesBack` | src/fs/overlay.rs:257-269 | deleting a lower file, writing to its name and creating it brings the old contents back |
| `OverlayRefinement.HiddenTruncateIsRefused` | src/fs/overlay.rs:314-317 | the same for a truncate: harmless if and only if the lower layer has nothing there |
| `OverlayRefinement.DeletedFileComesBackCut` | src/fs/overlay.rs:289-317 | deleting a lower file, truncating its name and creating it brings the start of the old contents back |
| `OverlayObject.OverlayFs.Whited` | src/fs/overlay.rs:50-62 | the loop up the path finds a whiteout at it or above it |
| `OverlayObject.OverlayFs.Stat` | src/fs/overlay.rs:215-223 | what the merged view has at a path |
| `OverlayObject.OverlayFs.ReadDir` | src/fs/overlay.rs:236-255 | the two loops list exactly the visible children |
| `OverlayObject.OverlayFs.EnsureDir` | src/fs/overlay.rs:65-71 | the recursion brings up exactly the missing directories above |
| `OverlayObject.OverlayFs.CopyUpPath` | src/fs/overlay.rs:92-125 | the recursion brings up exactly what is visible above, at and below; for a deleted name it brings up what the lower layer has there |
| `OverlayObject.OverlayFs.AddEntry` | src/fs/overlay.rs:262-278 | error number and whole new state |
| `OverlayObject.OverlayFs.WriteAt` | src/fs/overlay.rs:257-260 | error number and whole new state, for a name in sight and for one missing from a visible directory |
| `OverlayObject.OverlayFs.SetLength` | src/fs/overlay.rs:314-317 | error number and whole new state, for a name in sight and for one missing from a visible directory |
| `OverlayObject.OverlayFs.UnlinkEntry` | src/fs/overlay.rs:289-298 | error number and whole new state |
| `OverlayObject.OverlayFs.RemoveDir` | src/fs/overlay.rs:300-312 | error number and whole new state |
| `OverlayObject.OverlayFs.RenameEntry` | src/fs/overlay.rs:436-486 | error number and whole new state, for files and symlinks |
| `MountPaths.NormalizeIsIdempotent` | src/fs/mount.rs:1236-1257 | normalizing yields components without `.`, `..` or empty ones, and normalizing again changes nothing |
| `MountPaths.NormalizeLoop` | src/fs/mount.rs:1236-1257 | the stack loop computes it |
| `MountPaths.JoinIsAppend` | src/fs/mount.rs:1236-1257 | normalizing a mount point followed by a path appends the components |
| `MountPaths.HasPrefixIsPrefix` | src/fs/mount.rs:1266-1275 | `path_has_prefix` is the prefix order on components |
| `MountPaths.RelativeIsDrop` | src/fs/mount.rs:1297-1304 | `relative_to` drops the mount point's components |
| `MountPaths.StripIsDrop` | src/fs/mount.rs:1284-1295 | `path_strip` drops a prefix, and fails exactly where there is none |
| `MountPaths.FsPathIsAppend` | src/fs/mount.rs:74-80 | `fs_path` appends components |
| `MountPaths.LengthFollowsDepth` | src/fs/mount.rs:803-813 | of two nested mount points the deeper has the longer string |
| `Mounts.WinnerIsBest` | src/fs/mount.rs:803-813 | the winner is a mount above the path, deeper than every other or the last of equals; none exactly if none is above |
| `Mounts.BestMount` | src/fs/mount.rs:803-813 | the loop finds it |
| `MountPivot.TranslateIsOnComponents` | src/fs/mount.rs:1217-1223 | the string translation of a pivot is the one on components |
| `MountPivot.PivotCommutes` | src/fs/mount.rs:241-278 | with a root mount, nothing earlier below the new root and nothing kept below `put_old`, every path not at or below `put_old` finds the same filesystem and inner path after translation |
| `MountLaws.PivotAllowed` | src/fs/mount.rs:241-249 | a pivot is allowed if and only if something is mounted at the new root, it is not `/`, and the old root's place is within it |
| `MountLaws.PivotMoves` | src/fs/mount.rs:257-277 | every mount is there once afterwards: those of the new root lose its prefix, the others go below the old root's place and to the pivot's side, and nothing else about them changes |
| `MountLaws.OldRootGoesAlone` | src/fs/mount.rs:257-277 | detaching the old root then takes along exactly the old mounts below it, also where a kept one is below its place |
| `MountLaws.PivotKeepsSides` | src/fs/mount.rs:250-277 | no mount is on a side past the last pivot, so the next one's is new |
| `MountLaws.AttachKeepsSides` | src/fs/mount.rs:442-520 | attaching keeps it so in every namespace |
| `MountLaws.BindKeepsSides` | src/fs/mount.rs:172-202 | so does a bind |
| `MountLaws.UnmountKeepsSides` | src/fs/mount.rs:692-728 | so does unmounting |
| `MountDetach.DetachKeepsPaths` | src/fs/mount.rs:710-728 | after a detaching unmount every path that resolved into the detached mount or one moving with it finds, translated, the same file |
| `MountDetach.DetachLeavesOthers` | src/fs/mount.rs:710-728 | paths elsewhere resolve as before |
| `MountLaws.RefusalMeans` | src/fs/mount.rs:678-691 | an unmount is refused with 22 if nothing is there or it is locked, 16 for one of the embedder's in the first namespace |
| `MountLaws.ReplyMeans` | src/fs/mount.rs:693-709 | then 16 if and only if something of the same side is mounted below and it is not to be detached; else it is gone, or hidden |
| `MountLaws.GoneTakesTop` | src/fs/mount.rs:705-709 | gone: the mount on top there and no other, the rest in their order |
| `MountLaws.HidMoves` | src/fs/mount.rs:710-728 | hidden: it moves, what is below it on its side moves along, every other mount stays as it is |
| `MountLaws.ParentIsDeepest` | src/fs/mount.rs:550-559 | the parent whose peers lose their copies is the deepest mount strictly above, the last of equals |
| `MountClear.DetachKeepsClear` | src/fs/mount.rs:710-728 | hiding a mount keeps every hidden place still to come free of mounts, in points and in mounted directories |
| `MountClear.CarryKeepsClear` | src/fs/mount.rs:736-777 | so does carrying |
| `MountClear.PivotKeepsClear` | src/fs/mount.rs:241-278 | so does a pivot, which takes prefixes off |
| `MountClear.AllCopiesClear` | src/fs/mount.rs:470-492 | so do the copies of propagation, made of the receiver's point and the place in the filesystem |
| `MountClear.GuestPathIsClear` | src/fs/mount.rs:711-713 | a path without the mark, as any from the guest, is in no such place |
| `MountClear.TranslatedIsClear` | src/fs/mount.rs:711-713 | nor is one sent after a mount that was hidden |
| `MountCarry.CarriedFinds` | src/fs/mount.rs:736-777 | a carried name finds here what the path finds in the other namespace |
| `MountCarry.CarryLeavesOthers` | src/fs/mount.rs:736-777 | carrying changes no other path's resolution |
| `MountCarry.CollectDropsUnused` | src/fs/mount.rs:781-792 | exactly the mounts under a hidden root that no held path lies in are dropped |
| `MountCarry.CollectKeepsPaths` | src/fs/mount.rs:781-792 | every held path, and every path a guest can name, resolves as before |
| `MountBind.BindShowsSource` | src/fs/mount.rs:172-202 | a recursive bind shows below the target what was below the source |
| `MountLaws.BoundStandsFor` | src/fs/mount.rs:180-187 | the mount a bind makes is the guest's, not locked, and keeps filesystem, flags, group and master of the one it stands for |
| `MountLaws.MirroredStandFor` | src/fs/mount.rs:188-198 | so do those below, which are exactly the bindable mounts strictly below the source |
| `MountPropagation.TurnServes` | src/fs/mount.rs:468-505 | one turn of the worklist gives one copy to exactly the mounts whose turn it is |
| `MountPropagation.TurnServesMore` | src/fs/mount.rs:468-505 | over all turns no mount gets a second copy |
| `MountPropagation.TurnExplores` | src/fs/mount.rs:464-515 | everything queued is reached, and everything one step further is found or queued |
| `MountPropagation.ExploredIsReached` | src/fs/mount.rs:464-515 | with the queue empty the groups visited are exactly the reachable ones |
| `MountGroups.CopyIsAtThePlace` | src/fs/mount.rs:470-492 | each copy is at the same place of the shared filesystem as the original |
| `MountGroups.ReachedOnOneFs` | src/fs/mount.rs:524-543 | where groups keep to one filesystem, asking for it on the way changes nothing that is reached |
| `MountGroups.AssignLevel` | src/fs/mount.rs:506-514 | missing groups get fresh numbers, each tied to its mount's filesystem |
| `MountWorklist.Visit` | src/fs/mount.rs:468-505 | the loop over all mounts of all namespaces: the copies and the groups queued, which `Propagate` turns into levels of groups |
| `MountWorklist.Propagate` | src/fs/mount.rs:456-515 | the worklist ends; exactly the reached mounts have one copy each; each group reached has its own level of new groups, the slave of the level it was reached from |
| `MountLevels.LevelingTurn` | src/fs/mount.rs:464-515 | a turn keeps it so: every copy made has the groups of its mount's level, every queued group a member that follows a group done, and no number is given out twice |
| `MountCopies.CopiesAre` | src/fs/mount.rs:442-520 | the copies an attach makes are those of each mount of the tree under the mounts that get one, and nothing else |
| `MountCopies.CopyUnderEach` | src/fs/mount.rs:442-520 | a mount gets one if and only if it is a receiver, the place is in the part mounted there, and it is not a shared one at the parent's own place |
| `MountCopies.OneUnderEach` | src/fs/mount.rs:468-505 | and then just one of each mount of the tree |
| `MountCopies.CopyLooks` | src/fs/mount.rs:470-492 | a copy is at the same place of the filesystem, of the same filesystem, directory and flags, the guest's, not locked, and on the side of the mount it is under |
| `MountCopies.CopyUnderPeer` | src/fs/mount.rs:493-494 | under a member of the parent's group a copy has the original's group and no master |
| `MountCopies.CopyUnderSlave` | src/fs/mount.rs:495-497 | under a slave that is not shared a copy has no group, and for master the group of the same mount's copy under a member of the slave's master, or of the original under the parent's own |
| `MountCopies.CopyUnderSharedSlave` | src/fs/mount.rs:498-514 | under a shared slave a copy has a group nothing was in or followed, and for master that of a copy under a group one of its members follows |
| `MountCopies.CopiesShareGroups` | src/fs/mount.rs:493-514 | two copies are in one group if and only if the mounts they are under are |
| `MountBelow.ReachedIsLater` | src/fs/mount.rs:464-515 | a group is reached only from older ones, so propagation never runs in a circle |
| `MountBelow.AttachLeaves` | src/fs/mount.rs:515-520 | every namespace's list after an attach holds what it held, the tree and the copies |
| `MountBelow.StaysBelow` | src/fs/mount.rs:442-543 | what happens under a shared slave's copy happens under copies made for what is reached from the slave's group, never under the original or any older mount |
| `MountBelow.MountedBelowSlave` | src/fs/mount.rs:442-520 | so what is mounted later below a slave's copy adds nothing outside the slave's namespace, or outside its own group if it is shared |
| `MountWorklist.Receivers` | src/fs/mount.rs:524-543 | the worklist of `receivers` returns exactly the mounts with a reached peer group or master, once for each of the two that is reached |
| `MountWorklist.ReceiversGetCopies` | src/fs/mount.rs:442-543 | the mounts that get a copy are the receivers less the shared ones at the parent's own place |
| `MountWorklist.SourceSlaveGetsCopy` | src/fs/mount.rs:469-504 | a mount at the parent's own place gets a copy if and only if it is a reached slave that is not shared |
| `MountBeneath.SlaveBeneathGetsCopy` | src/fs/mount.rs:469-504 | such a slave, beneath a shared mount of the same directory, does get one |
| `MountOutcomes.PruneUndoesCopy` | src/fs/mount.rs:575-586 | unmounting takes away the copy mounting put there |
| `MountKeep.PruneEmpties` | src/fs/mount.rs:562-586 | over all receivers each place that nothing is mounted below loses one mount a visit, the last first, whatever the order |
| `MountCounts.CopyPoints` | src/fs/mount.rs:442-520 | at each place there are as many copies as mounts served whose place it is |
| `MountCounts.VisitsCount` | src/fs/mount.rs:524-588 | each place is visited once for every receiver away from the parent's own place, and once more for those found twice |
| `MountRestore.ReceiversStay` | src/fs/mount.rs:524-543 | what a new mount adds is no receiver, and the receivers are those there were, as often |
| `MountRestore.CopiesGone` | src/fs/mount.rs:548-588 | in a namespace all copies are taken away again if and only if none is at a busy place and at each place the unshared slaves of the parent's own place are no more than the receivers found twice |
| `MountRestore.UnmountUndoesMount` | src/fs/mount.rs:428-704 | mounting a new filesystem under a shared mount and unmounting it leaves every namespace's list as it was if and only if that holds everywhere and nothing goes along with the mount |
| `MountRestore.MountAndUnmount` | src/fs/mount.rs:428-704 | the same of the two calls on the table |
| `MountBeneath.MakeBeneath` | src/fs/mount.rs:172-673 | mount, make shared, bind, make slave, bind again: a slave beneath a shared mount of the same directory |
| `MountBeneath.SlaveBeneathKeepsCopy` | src/fs/mount.rs:442-588 | there what is mounted and unmounted leaves a copy behind |
| `MountOutcomes.HiddenStillResolves` | src/fs/mount.rs:710-728 | every path into what a detaching unmount hides finds, translated, the same file, in any table the operations reach |
| `MountTableObject.MountTable.constructor` | src/fs/mount.rs:112-114 | an empty table |
| `MountTableObject.MountTable.Enter` | src/fs/mount.rs:118-129 | namespaces are swapped, none lost |
| `MountTableObject.MountTable.CopyNamespace` | src/fs/mount.rs:137-157 | each mount inherited, with a lock shared ones becoming slaves; groups stay on one filesystem |
| `MountLaws.InheritedMeans` | src/fs/mount.rs:137-157 | without a lock a copy is the mount; with one it is locked unless at `/`, in no group, and follows the group the original is in or else follows |
| `MountLaws.InheritedFollows` | src/fs/mount.rs:147-153 | so what is mounted under the original shows under the copy and nothing goes the other way |
| `MountTableObject.MountTable.CollectNamespaces` | src/fs/mount.rs:160-162 | only namespaces not in use are forgotten, the first never |
| `MountTableObject.MountTable.Bind` | src/fs/mount.rs:172-202 | error number and whole new table of every namespace, the groups of every copy included (`MountCopies`) |
| `MountTableObject.MountTable.MoveMount` | src/fs/mount.rs:205-217 | error number and whole new table |
| `MountTableObject.MountTable.MountOwn` | src/fs/mount.rs:415-424 | the embedder's mount goes on top |
| `MountTableObject.MountTable.MountGuest` | src/fs/mount.rs:428-436 | the guest's mount on top, and the whole new table of every namespace, the groups of every copy included (`MountCopies`) |
| `MountTableObject.MountTable.Attach` | src/fs/mount.rs:442-520 | private parent: the tree is appended; shared parent: the tree shared, and one copy for exactly the receivers less the shared ones at the parent's own place, with the groups `MountCopies` says, at the end of their namespaces' lists |
| `MountTableObject.MountTable.AttachShared` | src/fs/mount.rs:451-520 | the same for a shared parent |
| `MountTableObject.MountTable.AllMounts` | src/fs/mount.rs:596-603 | every mount of every namespace once, each namespace's in order |
| `MountTableObject.MountTable.PropagateUnmount` | src/fs/mount.rs:548-588 | private parent: nothing; shared parent: the copy of each receiver, in every namespace, goes unless something is below it |
| `MountTableObject.MountTable.SetPropagation` | src/fs/mount.rs:617-673 | exactly the mounts meant change, one after the other, each with the group or master it gets; what is mounted where stays |
| `MountLaws.SetMeans` | src/fs/mount.rs:635-669 | shared: a group, new unless it had one; private and unbindable: no group, no master; slave: no group, following the one it was in if and only if another mount is still in it; nothing else about it or any other mount changes |
| `MountTableObject.MountTable.SetOne` | src/fs/mount.rs:635-669 | one mount: a new group, the count of peers that decides whether a slave gets a master, or none |
| `MountTableObject.MountTable.PivotRoot` | src/fs/mount.rs:241-278 | refused exactly when the source refuses, else the pivoted table |
| `MountTableObject.MountTable.Unmount` | src/fs/mount.rs:678-728 | the answer, the whole new table of every namespace, and every path into what was hidden still finds its file by the move answered; hidden places to come stay free |
| `MountTableObject.MountTable.RemoveTop` | src/fs/mount.rs:692-728 | the half of it in the current namespace: refused, gone or hidden |
| `MountTableObject.MountTable.CarryFrom` | src/fs/mount.rs:736-777 | each path is answered with a name that finds the same file, `None` exactly when nothing owns it; other paths resolve as before |
| `MountTableObject.MountTable.CollectDetached` | src/fs/mount.rs:781-792 | the loop leaves exactly the mounts to keep |
| `StackModel.FromToLe` | src/loader.rs:883-887 | little-endian bytes read back as the value |
| `StackModel.StackSize` | src/loader.rs:162-166 | eight mebibytes from 64 on, an eighth of smaller memories, a quarter mebibyte below two |
| `StackModel.BlobAt` | src/loader.rs:804-819 | each string is in the blob at its offset, with its NUL |
| `StackLayout.LayoutOf` | src/loader.rs:821-872 | `sp` and the random bytes are 16-byte aligned, the strings 8; vector, random bytes and strings are disjoint and below the top |
| `StackLayout.LayoutIsHighest` | src/loader.rs:821-872 | no aligned parts in that order go higher, and where there are any these are found |
| `StackLayout.ArgIsReached` | src/loader.rs:889-893 | `argc` is in place and each argument pointer reaches its own NUL-terminated string; a null ends the list |
| `StackLayout.EnvIsReached` | src/loader.rs:894-897 | so does each environment pointer |
| `StackLayout.ReaderUndoesWriter` | src/loader.rs:715-743 | for any vector within the caps the reader returns the pairs written |
| `StackLayout.AuxvReadsBack` | src/loader.rs:715-743 | on a stack of at most eight mebibytes the caps are never reached |
| `StackObject.PagesCover` | src/loader.rs:878-887 | a run of bytes is mapped exactly when all pages it lies in are |
| `StackObject.GuestMemory.PushAll` | src/loader.rs:882-901 | the moving cursor writes the words in a row, and fails exactly when one of them is not mapped |
| `StackObject.BuildBlob` | src/loader.rs:802-819 | the blob of argument, environment and platform strings, and the offset of each |
| `StackObject.PartsSurvive` | src/loader.rs:878-901 | no part of the stack overwrites another |
| `StackObject.BuildStack` | src/loader.rs:781-904 | the answer is fixed by the memory given: built, refused or failed, each exactly when; once built the whole stack stands in memory, and `AuxvSays`, `AuxvLeads`, `ArgvIsReached` and `EnvpIsReached` say what a process finds there |
| `StackObject.WindowDecides` | src/loader.rs:794-879 | what fits the window mapped up front is built; where nothing else is mapped only that is |
| `StackObject.LongArgumentFails` | src/loader.rs:794-879 | an argument longer than the window passes the size check and cannot be written |
| `StackObject.BuiltReadsBack` | src/loader.rs:715-904 | a stack that was built has an aligned `sp`, the right `argc`, and gives the reader exactly its twenty pairs |
| `StackObject.ArgvIsReached` | src/loader.rs:889-893 | behind the k-th argument pointer is the process's k-th argument |
| `StackObject.EnvpIsReached` | src/loader.rs:894-897 | behind the k-th environment pointer is its k-th environment string |
| `StackObject.AuxvSays` | src/loader.rs:836-862 | read back, every tag is there once: 3, 5, 7, 9 are program headers, their number, interpreter base and entry, 4 is 56, 6 is 4096, 17 is 100, 8, 11 to 14 and 23 are 0, 33 the vDSO on x86-64, 16 and 26 the masks of the machine |
| `StackObject.AuxvLeads` | src/loader.rs:821-862 | behind 25 are the 16 random bytes, behind 31 the first argument, behind 15 "x86_64" or "aarch64" by the machine |
| `StackObject.LoadAuxv` | src/loader.rs:715-743 | the loops of the reader compute what `ReadAuxv` says |

## Left out

- cgroup CPU time, ownership, mtimes, rendering and control files other than freeze, kill, procs and the limits; `write_subtree_control`
- the root cgroup's own counters, which saturate; exactness is claimed below the root
- 64-bit upper saturation of cgroup counters and wrap-around of ids, group numbers, link counts and `force_charge`: integers are mathematical
- the second copy of the calling task that the task list may hold for other processors: the model has one table
- CgroupKernel.EveryRun: that the lock `shared` is held over both halves of a fork and over every `rmdir` appears as a condition on the order of steps; the lock itself is not modelled
- parsing of the process id and of limits written to control files
- parking and waking of a lock request are one atomic step each; wrap-around of negative lengths in `read_flock`; memfd seals and the other `fcntl` commands
- modes, owners, timestamps and inode numbers of directories, FIFOs and symlinks in the in-memory filesystem; removing or renaming its root entry
- names count characters, which is bytes for ASCII names
- what the old quota is left with when a filesystem moves to another
- overlay directory renames, hard links, special nodes, attributes and metadata; failures of the upper layer other than a file too large
- OverlayObject.OverlayFs.AddEntry: a name in a directory that is not in sight, where the source would bring directories up under a whiteout
- OverlayObject.OverlayFs.WriteAt: a name in a directory that is not in sight, for the same reason
- OverlayObject.OverlayFs.SetLength: a name in a directory that is not in sight, for the same reason
- OverlayObject.OverlayFs.RenameEntry: directories, which need the whole subtree in the upper layer, and targets in a directory that is not in sight
- symlink walking across backends (`canonical`, `follow`): resolution is stated on normalized paths
- mount flags that only refuse writes, listings, quotas handed to mounted filesystems, and the caller's root directory
- MountRestore.MountAndUnmount: the condition is exact where nothing is mounted at the point yet, the filesystem is mounted nowhere else and no receiver's place is above another's or above the point; where places nest the outcome depends on the order of the worklist, and there it is not decided
- guest memory is a run of bytes with mapped pages; protections, copy-on-write and a full frame pool are not modelled
- the generator of the 16 random bytes, the address of the vDSO page and the header values are inputs
- ELF parsing and relocation, image fetching and caching
- the procfs, sysfs, devfs, tar, passthrough and network code, the processors, the embedding API and the user interface
