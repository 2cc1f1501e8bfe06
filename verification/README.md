# r9x: a verified model

A Dafny model of the parts of the r9x kernel that carry unbounded promises: the
MCS queue lock, message channels over the process scheduler, recursive page
tables and address spaces, the two allocators, the devicetree and ELF readers
with the program loader, and the timer's claim protocol.  `dafny verify
dfyconfig.toml` checks everything.

| file | models | form |
|---|---|---|
| `McsLock.dfy` | `port/src/mcslock.rs` | transition system over any number of threads and nodes |
| `Scheduler.dfy` | `pick_next`, `PriorityState` | functions, one search method |
| `Ipc.dfy`, `IpcInvariant.dfy`, `IpcTheorems.dfy`, `IpcFairness.dfy`, `IpcAnswers.dfy`, `IpcProcesses.dfy`, `IpcWakeups.dfy` | `port/src/ipc.rs`, the process table, `close_all_for` | state machine whose step is one handler, and its theorems: the wakeup invariant, what callers are told, who gets the CPU, who is woken |
| `Kernel.dfy` | the same handlers | classes updated in place, each method proved equal to its step in `Ipc` |
| `PageTable.dfy`, `PageMap.dfy`, `PageRange.dfy` | `aarch64/src/vm.rs` | walks and table edits over a memory of descriptors |
| `AspaceState.dfy`, `UserFrames.dfy`, `AspaceEffects.dfy`, `Aspace.dfy` | `aarch64/src/aspace.rs` over `vm.rs` | a class holding the tables, runs of its operations, the pages users are given, and what the runs keep |
| `BitmapAlloc.dfy` | `port/src/bitmapalloc.rs`, rounding in `core/src/addr.rs` | a class over a byte array |
| `QuickFit.dfy` | quick lists of `port/src/allocator.rs` | a class over list heads and headers in freed blocks |
| `Fdt.dfy`, `FdtTrees.dfy`, `FdtPanics.dfy` | `core/src/fdt.rs` | token walks, what they yield on an encoded tree, and when they panic on any block |
| `Elf.dfy`, `ElfBytes.dfy`, `ElfImage.dfy`, `ElfReads.dfy` | `port/src/elf.rs` | a reader method, a writer of files with any headers, and what the reader says of each |
| `Loader.dfy`, `LoadedProcess.dfy` | `load_elf` | a loader over `Aspace`, and what users may do in the process it leaves |
| `Timer.dfy` | `aarch64/src/timer.rs` | transition system over any number of cores, and the timer table |

`Prelude.dfy` and `Arith.dfy` hold shared datatypes and division facts.

## Where the code differs from what is promised

Each of these is stated as it is in the code, with a concrete state or input
that shows it and the exact condition under which the promise holds.

- A second process that blocks in the same role on a channel overwrites the first
  one's waiter slot (`IpcTheorems.SecondSenderStrandsFirst`).  A step keeps every
  wakeup if and only if a round that has to wait finds its role free
  (`IpcInvariant.StepKeepsInvIff`), which the waiter slot tells
  (`IpcTheorems.RivalIsRecorded`).
- `sys_kill` does not stop a process that names itself: its exit or fault then
  panics the kernel (`IpcTheorems.SelfKillPanics`, `IpcTheorems.SelfKillGoesOn`).
  Naming another process is the exact condition (`IpcInvariant.StepKeepsInvIff`).
- A process that dies while blocked on no channel should close none.  One that timed
  out in `receive_at` is still named in the waiter slot, and its exit closes the
  channel (`IpcTheorems.TimeoutExitCloses`).  The exact condition is that no waiter
  slot names it (`IpcTheorems.DeathClosesIff`).
- `set_priority` tests for a boost after it changed the base, so a less urgent
  base marks a waiting receiver boosted and its next sender's priority is not
  inherited (`IpcTheorems.SetPriorityStopsInheritance`, exact condition in
  `IpcTheorems.SendInheritsPriorityIff`).
- `sys_setprio` tests its whole argument and stores the low byte, so 511 installs
  the idle level (`IpcTheorems.IdleLevelInstalled`, exact condition in
  `IpcTheorems.SetPrioInstallsIdleIff`).
- A spurious failure of the weak compare-exchange with no successor leaves the
  holder in the second loop of `unlock` (`McsLock.WeakFailureStrandsHolder`, exact
  condition in `McsLock.AwaitNextAdvancesIff`).  Nothing else stops the threads inside
  the lock (`McsLock.StuckIff`).
- `user_range_ok` bounds a range at the kernel half and walks its low 48 bits, so it
  accepts addresses from 2^48 on, where every access faults
  (`PageRange.HighPointerAccepted`), and, through the recursive window, a block
  entry the hardware does not decode (`PageRange.BlockSeenAsPage`).  A device page at
  physical address 2^44 is accepted and faults too (`Aspace.FarDeviceFaults`).  The
  exact condition is in `PageRange.UserRangeOk`; for the roots `aspace.rs` builds it
  is that the range ends within 48 bits and every byte of it falls on a page below
  2^44 (`AspaceEffects.UserRangeReachedIff`).
- `load_elf` admits segments past 48 bits: one that nothing can reach
  (`Loader.FarSegmentUnreachable`), or one mapped onto another
  (`Loader.FarSegmentsAlias`).  `Loader.FarFileAccepted` and `Loader.TwoFileAccepted`
  give files with these segments.  The exact condition is in `Loader.AllReachedIff`.
- The ELF reader adds a symbol table's offset and size unchecked and panics on a file
  whose table ends past 2^64 (`ElfReads.TableEndOverflows`, exact condition in
  `ElfReads.OverflowsIff`).
- The devicetree walks panic on a block that ends a node it has not begun
  (`FdtPanics.StrayEndPanics`, exact conditions in `FdtPanics.NodesPanicIff` and
  `FdtPanics.ScanPanicsIff`).
- `map_mmio` maps any physical range, table pages included
  (`Aspace.DeviceExposesTable`).  A descriptor stores 36 bits of the frame, so the
  address 2^48 above a table gives that table away as well
  (`Aspace.FarDeviceExposesTable`).  The exact condition, on the frames stored, is in
  `Aspace.AddressSpaces.MapDevice`.
- `free_unused_ranges` rounds outward: it frees the page that the start of
  available memory cuts (`BitmapAlloc.CutPageIsFreed`, exact condition in
  `BitmapAlloc.FreesExactlyWholePages`) and pages that used ranges share with a gap
  (`BitmapAlloc.CutRangeIsFreed`, exact condition in `BitmapAlloc.UsedPagesKeptIff`).
- `deallocate` tests the bit of the page and clears one in the first byte of its
  bitmap (`BitmapAlloc.WrongPageReturned`); exact conditions for returning the page
  and for keeping the allocator sound are in `BitmapAlloc.BitmapPageAlloc.Deallocate`.
- Restarting a one-shot timer between a core's due check and its swap, even from
  the timer's own callback, lets that core fire it early
  (`Timer.RestartCanFireEarly`, `Timer.CallbackRestartFiresEarly`).  Without such a
  store every fire is on time (`Timer.OneShotFiresOnTime`); with one, the last
  decides (`Timer.RestartFiresEarlyIff`).
- A cancelled periodic timer is fired once more by a core past its load of `active`
  (`Timer.CancelledFiresOnce`).  A one-shot is not, nor a periodic one by any other core
  (`Timer.StoppedStaysStopped`).
- The bytes of a QuickFit arena before its first 64-byte boundary are never used
  (`QuickFit.OddArenaLosesByte`, exact condition in
  `QuickFit.Allocator.NothingLostIff`).

Modelling choices: both build profiles enable overflow checks and debug
assertions, so arithmetic overflow is a panic; a panic is an error result or a
`None`.  Interrupt masking makes one channel handler one step.  Atomic operations
are sequentially consistent.  The hardware translates 48 address bits in each half
and faults outside them; physical addresses have 44 bits, and a descriptor that names
a frame past them faults.  The frame field of a descriptor is 36 bits wide and keeps
the low 36 bits of what is stored; the macro that generates its accessors is not part
of this model.  A descriptor grants users by the two access bits AP[2:1] and lets them
run a page by the execute-never bit UXN, as in the Arm format; its access flag and
shareability, which every constructor sets alike, are not part of this model.  The page
allocator behind the page tables hands out a given list of distinct pages and fails when
it is empty.
A user may write anything into its own live heap blocks.

## Model

| member | source | states |
|---|---|---|
| McsLock.StepKeepsInv | port/src/mcslock.rs:48-81 | every atomic operation of `lock` and `unlock`, spurious compare-exchange failures included, keeps the queue invariant; what the operations achieve is in `McsLock.SwapTakesFreeLock` to `McsLock.NoDeadlock` |
| McsLock.RunKeepsInv | port/src/mcslock.rs:48-81 | so does every interleaving of any number of threads |
| McsLock.MutualExclusion | port/src/mcslock.rs:48-82 | in every reachable state at most one thread holds the lock |
| McsLock.AcquisitionIsFifo | port/src/mcslock.rs:48-82 | threads acquire the lock in the order of their queue swaps, none skipped, and no null successor is followed |
| McsLock.HandOffDelivers | port/src/mcslock.rs:49-60 | the clear of a waiter's flag comes after its own set, finds it spinning, and passes the lock to it alone |
| McsLock.SpinnerIsServed | port/src/mcslock.rs:53-60 | a spinner's flag is clear exactly when it is the oldest in the queue; otherwise the one before it is linked to it |
| McsLock.SwapTakesFreeLock | port/src/mcslock.rs:48-57 | a swap that finds the lock free takes it at once; any other queues behind the last thread |
| McsLock.SpinnerTakesLock | port/src/mcslock.rs:53-60 | a spinner takes the lock with its next step exactly when it is the oldest in the queue; until then its steps change nothing |
| McsLock.CasFreesIff | port/src/mcslock.rs:64-76 | the compare-exchange of a holder with nobody behind it leaves the queue word null, the queue empty and the thread done; with somebody behind it, it only goes on to await its successor |
| McsLock.UnlockAlone | port/src/mcslock.rs:64-81 | an uncontended `unlock` frees the lock |
| McsLock.UnlockHandsOver | port/src/mcslock.rs:64-81 | with the next thread spinning, `unlock` ends and that thread's next step takes the lock |
| McsLock.UnownedNodeIsUnreachable | port/src/mcslock.rs:64-81 | once `unlock` returned, the queue word, every thread's locals and every node in use have forgotten the node |
| McsLock.AwaitNextAdvancesIff | port/src/mcslock.rs:74-76 | the second loop of `unlock` ends exactly when a successor has linked itself |
| McsLock.WeakFailureStrandsHolder | port/src/mcslock.rs:66-76 | a reachable state with one thread alone in the queue whose every further step changes nothing |
| McsLock.OnlyWeakFailStrands | port/src/mcslock.rs:66-76 | only a spurious failure with nobody queued behind strands a thread |
| McsLock.StuckIff | port/src/mcslock.rs:48-82 | the threads inside `lock` and `unlock` are stuck if and only if there is one and it is stranded so |
| McsLock.NoDeadlock | port/src/mcslock.rs:48-82 | without spurious failures, while a thread is inside `lock` or `unlock` some thread can go on |
| Scheduler.PickNext | aarch64/src/process.rs:302-321 | the minimum-then-search loops return the cyclically first of the most urgent eligible slots, or none exactly when none is eligible |
| Scheduler.PickIsUnique | aarch64/src/process.rs:302-321 | that description fixes the slot |
| Scheduler.PickExists | aarch64/src/process.rs:302-321 | and is always met by some answer |
| Scheduler.PassedOverComesCloser | aarch64/src/process.rs:302-321 | a most urgent slot that is passed over comes strictly closer to the cursor |
| IpcFairness.NoStarvation | aarch64/src/process.rs:1274-1352 | in any part of any kernel run, a slot that stays Runnable while nobody more urgent is switched to sees fewer switches than its distance from the cursor, so fewer than there are slots |
| IpcInvariant.StepKeepsInvIff | port/src/ipc.rs:157-480 | a handler, interrupt or kernel call keeps the wakeup invariant if and only if, in the state before it, a round that has to wait finds no other process blocked in its role on the channel and no process kills itself; then nothing panics but a kernel spawn into a full table |
| IpcInvariant.RunningIsCurrent | aarch64/src/process.rs:1199-1222 | the search for a Running slot finds the current process |
| IpcTheorems.RunKeepsInv | port/src/ipc.rs:213-480 | the invariant holds over whole runs |
| IpcTheorems.NoLostWakeup | port/src/ipc.rs:213-480 | a process Blocked in receive is the recorded receiver of an open empty channel, one Blocked in send the recorded sender of an open full one, and nothing else is Blocked |
| IpcTheorems.WaitersAreLive | aarch64/src/ipc.rs:187-194 | no channel has both waiters, a closed one has none, and no waiter field names an empty or Exited slot |
| IpcTheorems.ExactlyOnceFifo | port/src/ipc.rs:114-149 | accepted messages equal delivered ones followed by the queue, which never overflows |
| IpcTheorems.SendAnswersHonestly | port/src/ipc.rs:242-301 | `send` answers Ok exactly when the message was queued once, Closed exactly when the channel is closed, and blocks exactly when it is open and full; its push never fails and no other channel changes |
| IpcAnswers.ReceiveAnswersHonestly | port/src/ipc.rs:386-480 | `receive` and `receive_at` hand over the oldest message exactly when the channel is open and holds one, say Closed exactly when it is closed, time out exactly when it is open and empty with the moment passed, and wait otherwise |
| IpcAnswers.TryReceiveAnswersHonestly | port/src/ipc.rs:351-376 | `try_receive` likewise, and Empty exactly when the channel is open and empty |
| IpcAnswers.TrySendAnswersHonestly | port/src/ipc.rs:314-343 | `try_send` takes the message exactly when the channel is open with fewer than eight, says Full exactly when it is open with eight, Closed exactly when it is closed |
| IpcAnswers.ReplyNeedsTag | aarch64/src/ipc.rs:575-590 | a message under another tag than the caller's is refused and changes nothing; any other is a send |
| IpcAnswers.AnswersAreFifo | port/src/ipc.rs:213-480 | in every run from boot, the messages whose senders were told Ok are those the receivers were handed, in the same order, followed by the queue |
| IpcTheorems.RivalIsRecorded | port/src/ipc.rs:157-162 | a role is taken exactly when the recorded waiter is blocked in it, so one look at the waiter slot is the test the handlers leave out |
| IpcTheorems.SecondSenderStrandsFirst | port/src/ipc.rs:272 | a state reached from boot in which a second sender on a full channel overwrites the first one's waiter slot and strands it |
| IpcTheorems.SelfKillGoesOn | aarch64/src/process.rs:1803-1830 | a process that kills itself is Exited and still on CPU: its exit panics, its fault panics, and with no earlier slot free its next spawn claims the slot it runs in |
| IpcTheorems.SelfKillPanics | aarch64/src/process.rs:1199-1222 | a state reached from boot in which killing itself and then exiting or faulting panics |
| IpcTheorems.DeathClosesIff | aarch64/src/ipc.rs:174-194 | an exit, a fault or a kill in a reachable state closes exactly the open channels with a waiter slot that names the dead process, and leaves every channel as it was if and only if no slot does |
| IpcTheorems.TimeoutExitCloses | port/src/ipc.rs:448-463 | a state reached from boot in which a process, Running and in no call after its `receive_at` timed out, exits and closes the channel |
| IpcProcesses.ClosedForGood | port/src/ipc.rs:213-226 | a closed channel stays as it is, with the messages it held, whatever happens |
| IpcProcesses.HandlesCountUp | aarch64/src/ipc.rs:127-172 | a handle is good exactly when its channel was created; creating gives the next one, open and empty, up to sixteen; a bad one changes nothing |
| IpcTheorems.OneRunning | aarch64/src/process.rs:1274-1380 | at most one slot is Running and it is the one the current pointer names |
| IpcTheorems.ExitedIsFinal | aarch64/src/process.rs:1768-1830 | an Exited slot keeps its state and status until `sys_wait` frees it or a spawn claims it |
| IpcProcesses.YieldHandsOn | aarch64/src/process.rs:1274-1380 | yielding, or a tick, gives the CPU to the most urgent other Runnable slot, the first after the cursor of equals; the process keeps it exactly when there is none |
| IpcProcesses.WaitingHandsOn | port/src/ipc.rs:242-480 | a round that has to wait leaves its process Blocked in that call, on record in the waiter slot, at its base level if it receives, and hands the CPU on in the same way; any other leaves its process on CPU, back from the call |
| IpcProcesses.DeathHandsOn | aarch64/src/process.rs:1199-1463 | an exit or a fault ends the process on CPU with its status and hands the CPU on; a kill ends its target and keeps the CPU |
| IpcProcesses.WaitAnswers | aarch64/src/process.rs:1768-1796 | `sys_wait` answers with the status of the child named, or for 0 of the first Exited slot, and frees that slot; without one it refuses |
| IpcProcesses.DeathIsReported | aarch64/src/process.rs:1768-1830 | whatever runs between a death and the wait for it, as long as nothing frees or claims the slot, the wait answers with the status of the exit, the fault or the kill |
| IpcProcesses.SpawnAnswers | aarch64/src/process.rs:870-974 | a spawn takes the first empty or Exited slot for a Runnable process at the level asked for and answers with its number; it fails exactly when the level is idle or beyond, or every slot is live |
| IpcProcesses.RunAllStartsFirst | aarch64/src/process.rs:1065-1105 | the kernel starts the first Runnable slot and changes nothing else |
| IpcWakeups.WokenIff | port/src/ipc.rs:213-480 | a Blocked process leaves that state in a step if and only if a waiter slot that named it was emptied, its moment came at a tick, or it was killed |
| IpcWakeups.TickWakesIff | aarch64/src/process.rs:447-465 | after a tick nobody is Blocked whose moment has come, and nobody else was woken |
| IpcWakeups.OthersKeep | port/src/ipc.rs:213-480 | a step leaves every other live process its call, level and status, unless it kills it, sets its level or sends to it as the receiver on record, which changes its level only |
| IpcTheorems.NeverBelowBase | aarch64/src/process.rs:173-215 | effective priority is never less urgent than base, in any run |
| IpcTheorems.SendInheritsPriorityIff | port/src/ipc.rs:254-266 | in every run, a send that wakes a Blocked receiver leaves it at least as urgent as the sender if and only if it was not marked boosted or already was that urgent; its base stays, and its level stays or becomes the sender's |
| IpcTheorems.SendInheritsPriority | port/src/ipc.rs:254-266 | without `set_priority`, a blocked receiver is never marked boosted, so the sender's priority is always inherited |
| IpcTheorems.SetPriorityStopsInheritance | aarch64/src/process.rs:1136-1145 | a state reached from boot in which a receiver given base 200 waits at 128 and stays there when a sender at 50 wakes it |
| IpcTheorems.SetPrioInstallsIdleIff | aarch64/src/process.rs:1837-1873 | an accepted call gives the slot the low byte of its argument as base and changes nothing else, so it installs the idle level exactly when that byte is 255; a refused one changes nothing |
| IpcTheorems.IdleLevelInstalled | aarch64/src/process.rs:1837-1873 | a state reached from boot in which the argument 511 installs the idle level |
| Kernel.BoundedQueue.Push | port/src/ipc.rs:132-140 | the ring appends a message, or refuses it exactly when full |
| Kernel.BoundedQueue.Pop | port/src/ipc.rs:143-148 | the ring gives up its oldest message, or none exactly when empty |
| Kernel.ProcTable.SwitchOut | aarch64/src/process.rs:1274-1380 | demote, pick and switch, as the switch of the state machine |
| Kernel.ProcTable.BlockCurrent | aarch64/src/process.rs:1479-1507 | blocking switches away and nothing else in the table changes |
| Kernel.ProcTable.CheckDeadlines | aarch64/src/process.rs:447-465 | exactly the Blocked slots whose deadline passed become Runnable |
| Kernel.ProcTable.TryInstall | aarch64/src/process.rs:927-974 | a new process takes the first empty or Exited slot, or none exactly when there is none |
| Kernel.ProcTable.RunAll | aarch64/src/process.rs:1065-1105 | the first Runnable slot becomes Running and current |
| Kernel.ProcTable.SetPriority | aarch64/src/process.rs:1136-1145 | the slot's base becomes the given level and it runs at the more urgent of that and the level it ran at; nothing else of it changes, nor any other slot |
| Kernel.ProcTable.SysWait | aarch64/src/process.rs:1768-1796 | an Exited child is freed and its status returned, anything else refused |
| Kernel.Machine.SendRound | port/src/ipc.rs:242-301 | one round of `send` over queue, waiters and table equals the state machine's |
| Kernel.Machine.ReceiveRound | port/src/ipc.rs:386-480 | one round of `receive` or `receive_at` equals the state machine's, of which `IpcAnswers.ReceiveAnswersHonestly` says what is handed back |
| Kernel.Machine.TrySend | port/src/ipc.rs:314-343 | equals the state machine's step, of which `IpcAnswers.TrySendAnswersHonestly` says the answer |
| Kernel.Machine.TryReceive | port/src/ipc.rs:351-376 | equals the state machine's step, of which `IpcAnswers.TryReceiveAnswersHonestly` says the answer |
| Kernel.Machine.Close | port/src/ipc.rs:213-226 | closing wakes both recorded waiters and clears their slots |
| Kernel.Machine.CloseAllFor | aarch64/src/ipc.rs:187-194 | closes exactly the channels whose waiters name the process |
| Kernel.Machine.ExitCurrent | aarch64/src/process.rs:1199-1222 | the Running process found is buried with its status and left for good; with none Running it panics and changes nothing |
| Kernel.Machine.Fault | aarch64/src/process.rs:1389-1463 | a fault buries the current process with the fault status; if that is not Running it panics and changes nothing |
| Kernel.Machine.SysKill | aarch64/src/process.rs:1803-1830 | a live process is buried, its channels closed; any other is refused |
| PageTable.RecursiveIndices | aarch64/src/vm.rs:304-329 | the recursive address has recursive slots for its first indices and then those of the address |
| PageTable.RecursiveWalkFindsTable | aarch64/src/vm.rs:293-329 | from a live root aimed at a self-pointing target, the hardware's walk of the recursive address lands on a page exactly when the direct walk of the target reaches it at that level |
| PageMap.SlotFrame | aarch64/src/vm.rs:362-415 | writing one slot moves no table except those below it |
| PageMap.RootSlotWrite | aarch64/src/vm.rs:841-856 | writing a root's recursive slot moves no table and changes no ordinary translation |
| PageMap.HangKeeps | aarch64/src/vm.rs:396-414 | hanging a cleared fresh page in an empty slot changes no translation and keeps the tables a forest |
| PageMap.LeafWrite | aarch64/src/vm.rs:484-503 | writing a leaf gives it to the addresses of its slot and changes no other translation of any root |
| PageMap.NextMutKeeps | aarch64/src/vm.rs:362-415 | a step of the descent reaches the next table through the recursive address and changes no translation |
| PageMap.MapToCorrect | aarch64/src/vm.rs:449-521 | success gives every address of the page the new leaf and leaves every other ordinary translation of every root; failure leaves all; roots point at themselves again and no table has two parents |
| PageMap.MapToVerdict | aarch64/src/vm.rs:449-521 | it fails exactly for a recursive index, for a block above the wanted level, with a data abort for a table descriptor that names no memory, or for more missing tables than pages, and success takes one page per missing table |
| PageMap.MapToTables | aarch64/src/vm.rs:362-521 | mapping a 4K page only moves pages from the stock to the tables, and every descriptor that leads to a table still denies the user any access and any fetch and names memory there is |
| PageRange.SamePageIsPageOf | aarch64/src/vm.rs:293-300 | two addresses share their indices exactly when they share their page number modulo the 48-bit window |
| PageRange.NextPage | aarch64/src/vm.rs:549-567 | outside the recursive window the next page has the next number, so a mapped range never meets itself |
| PageRange.UserLeafEntry | aarch64/src/vm.rs:639-664 | the software walk through recursive addresses returns the leaf of the direct walk, and takes a data abort exactly when a descriptor on the way names no memory |
| PageRange.UserRangeOk | aarch64/src/vm.rs:604-627 | a range is accepted exactly when it ends at or below the kernel half and every byte of it has a leaf that grants the access, and the check itself aborts exactly when it comes to a byte below a descriptor that names no memory; the hardware, by its own rule on the access bits, lets every byte of an accepted range through if and only if the range ends within 48 bits, no byte falls on an entry it does not decode, and every byte falls on a page with a 44-bit address |
| PageRange.DeniedByPermission | aarch64/src/vm.rs:666-677 | a range that touches a read-only page is not accepted for writing, one that touches a page of the kernel's not at all |
| PageRange.TextPageChecked | aarch64/src/vm.rs:604-677 | tables with a page of text, eight bytes of which are accepted for reading, let through, and refused for writing |
| PageRange.WalkIsLeaf | aarch64/src/vm.rs:639-664 | the hardware's walk is the leaf the software walk finds, or a fault if the hardware does not decode it or it names no memory |
| PageRange.PagesReachedIff | aarch64/src/vm.rs:604-664 | in a root of 4K pages every byte decodes, those of the recursive window included, so an accepted range is let through if and only if it ends within 48 bits and every byte falls on a page with a 44-bit address |
| PageRange.HighRangeAccepted | aarch64/src/vm.rs:604-627 | every accepted range is accepted again any number of 2^48 higher, where every access faults |
| PageRange.HighPointerAccepted | aarch64/src/vm.rs:604-627 | tables and eight bytes past 2^48 that are accepted and fault |
| PageRange.BlockSeenAsPage | aarch64/src/vm.rs:639-664 | tables and an address in the recursive window that is accepted and faults |
| Aspace.AddressSpaces.MapTo | aarch64/src/vm.rs:449-521 | the in-place form of `map_to`: same verdict, same translations, invariant kept |
| Aspace.AddressSpaces.MapPhysRange | aarch64/src/vm.rs:529-571 | page k of the returned virtual range gets a descriptor with the low 36 bits of the frame of page k of the physical range, and nothing else changes; an error keeps the pages before it; an empty or misaligned range is refused |
| Aspace.AddressSpaces.constructor | aarch64/src/vm.rs:694-701 | two empty roots with self-pointers are a sound start, with no page in any user's reach |
| Aspace.AddressSpaces.Create | aarch64/src/aspace.rs:76-109 | a new root is a page of its own, points at itself, translates nothing, and touches no other user root; none exactly when the stock is empty or the page cannot be mapped for the kernel |
| Aspace.AddressSpaces.MapUserPage | aarch64/src/aspace.rs:141-176 | exactly one page changes in the user's root and one in the kernel's, both to the same fresh frame; no other user root changes, whatever the outcome; a failure leaves the user's root as it was or, at the second mapping, with the page in place; only a refused address, an empty stock or a kernel block over the stock fails |
| Aspace.AddressSpaces.MapUserDataPage | aarch64/src/aspace.rs:192-210 | one page of the user's root changes, to a fresh frame, and nothing in the kernel's; only a refused address or an empty stock fails, changing nothing |
| Aspace.AddressSpaces.MapDevice | aarch64/src/aspace.rs:216-232 | the device range appears in the user's root only, page for page; on the frames stored: table pages stay out of users' reach if and only if none of them is a table or in the stock, users are given existing memory only if and only if all lie below 2^44, and no page gets a second user if and only if no user translation that remains gives one of them |
| Aspace.DeviceExposesTable | aarch64/src/aspace.rs:216-232 | mapping the page of the kernel's root as a device succeeds and gives a user access to it |
| Aspace.FarDeviceExposesTable | aarch64/src/vm.rs:206-208 | so does mapping the physical address 2^48 above it |
| Aspace.FarDeviceFaults | aarch64/src/aspace.rs:216-232 | mapping the physical address 2^44 as a device succeeds; its bytes are accepted for writing and the access faults |
| UserFrames.DeviceProtectedIff | aarch64/src/vm.rs:529-571 | a range of user descriptors keeps tables out of users' reach if and only if none of the frames stored is a table or in the stock |
| UserFrames.DeviceBackedIff | aarch64/src/vm.rs:529-571 | it keeps users in existing memory if and only if every frame stored has a 44-bit address |
| UserFrames.DeviceExclusiveIff | aarch64/src/vm.rs:529-571 | it keeps every page to one user at one address if and only if no user translation outside the range gives a frame stored |
| Aspace.AddressSpaces.Switch | aarch64/src/aspace.rs:124-129 | installing a root changes no translation |
| AspaceState.NewRootKeeps | aarch64/src/aspace.rs:97-107 | a cleared page with its self-pointer joins the forest as a blank root |
| Aspace.AddressSpaces.Run | aarch64/src/aspace.rs:76-232 | any run of creations, installs and mappings, failed ones included, executed: a user root no operation names keeps all its translations, a new one no operation names translates nothing, and every root points at itself; without device ranges tables stay out of users' reach, users are given existing memory only, and no page is given to two users or at two addresses; with them the first holds if no frame they store is a table or in the stock, the second if all have 44-bit addresses, the third if they also store no frame in use and none twice |
| AspaceEffects.TablesOutOfReach | aarch64/src/aspace.rs:76-232 | whatever address the hardware lets a user through at, the recursive window included, the page reached is no table and not in the stock |
| AspaceEffects.NoSharedPage | aarch64/src/aspace.rs:76-232 | where no page was given twice, two accesses that reach the same page go through the same root at the same page of it |
| AspaceEffects.DataPageRights | aarch64/src/vm.rs:195-204 | the hardware lets users read and write a data page, and nobody run it |
| AspaceEffects.KernelAliasRights | aarch64/src/aspace.rs:141-176 | the kernel's mapping of a user's page denies users any access, and nobody runs it |
| AspaceEffects.DeviceRights | aarch64/src/vm.rs:167-179 | users read and write a device page as device memory, and nobody runs it |
| AspaceEffects.UserRangeReachedIff | aarch64/src/vm.rs:604-664 | for the user root installed, an accepted range is let through by the hardware if and only if it ends within 48 bits and falls on pages with 44-bit addresses, which it does when users are given existing memory only |
| AspaceState.CheckNeverAborts | aarch64/src/vm.rs:604-664 | for the user root installed, checking a range never takes a data abort |
| BitmapAlloc.RoundDown2 | core/src/addr.rs:23-26 | clearing low bits gives the greatest multiple of the step not above the number |
| BitmapAlloc.RoundUp2 | core/src/addr.rs:17-20 | the least multiple not below it |
| BitmapAlloc.Shape.IndicesRoundTrip | port/src/bitmapalloc.rs:185-212 | address to indices undoes indices to address |
| BitmapAlloc.BitmapPageAlloc.constructor | port/src/bitmapalloc.rs:61-69 | starts with every page allocated |
| BitmapAlloc.BitmapPageAlloc.MarkRange | port/src/bitmapalloc.rs:214-234 | marks exactly the pages the rounded range touches, as far as there are bits, and says exactly when it fails |
| BitmapAlloc.BitmapPageAlloc.FreeUnusedRanges | port/src/bitmapalloc.rs:101-128 | for every list of used ranges the exact set of pages left allocated, and success exactly when every gap to be freed ends below the old end and where there are bits; with sorted page-aligned ranges the freed pages are those outside every range |
| BitmapAlloc.FreesExactlyWholePages | port/src/bitmapalloc.rs:101-128 | from the all-allocated state, with used ranges sorted by start and on page boundaries, the pages free after the call are exactly the whole unused ones, if and only if the start is aligned or the page it cuts stays allocated |
| BitmapAlloc.CutPageIsFreed | port/src/bitmapalloc.rs:106-122 | an unaligned start that succeeds and frees the page it cuts |
| BitmapAlloc.UsedPagesKeptIff | port/src/bitmapalloc.rs:101-128 | for used ranges in order, with any ends, no page that holds used memory ends up free if and only if every gap begins and ends on a page boundary, as far as available memory goes |
| BitmapAlloc.CutRangeIsFreed | port/src/bitmapalloc.rs:106-122 | a used range that starts inside a page which succeeds and ends up free |
| BitmapAlloc.BitmapPageAlloc.IndicesFrom | port/src/bitmapalloc.rs:247-282 | the wrapping scan visits the bytes from the start to the byte where the bitmaps end or its address reaches the end, past which there is no byte for memory below the end, then from the first byte to the start |
| BitmapAlloc.ScanVisitsOnce | port/src/bitmapalloc.rs:247-282 | no byte is visited twice |
| BitmapAlloc.ScanCovers | port/src/bitmapalloc.rs:247-282 | every byte below the limit is visited |
| BitmapAlloc.BitmapPageAlloc.Allocate | port/src/bitmapalloc.rs:131-150 | succeeds exactly when some page is free, takes the first free page of the scan from where the last one was taken, and changes no other bit |
| BitmapAlloc.BitmapPageAlloc.Deallocate | port/src/bitmapalloc.rs:153-169 | the exact answer, panics included, and the exact set left allocated: the page itself is returned if and only if it is one of the first eight of its bitmap, and the allocator stays sound if and only if the page lies below the end |
| BitmapAlloc.WrongPageReturned | port/src/bitmapalloc.rs:153-169 | giving back page 8 of a full allocator frees page 0 and keeps page 8 allocated |
| BitmapAlloc.BitmapPageAlloc.AllocateRun | port/src/bitmapalloc.rs:131-150 | a run of allocations hands out no page twice and stops short only when none is left |
| QuickFit.AdjustPicks | port/src/allocator.rs:219-228 | adjusting picks the first list whose blocks are large enough |
| QuickFit.QuickIff | port/src/allocator.rs:219-235 | the quick lists serve exactly the layouts of at most 16384 bytes aligned no more than the smallest block that holds them |
| QuickFit.OneBlockPerByte | port/src/allocator.rs:209-303 | in a tiled arena every byte is in exactly one block |
| QuickFit.TileNext | port/src/allocator.rs:86-103 | an aligned block at the end extends the tiling |
| QuickFit.Allocator.TryAlloc | port/src/allocator.rs:86-103 | the bump cursor moves past alignment and size, or not at all exactly when they do not fit |
| QuickFit.Allocator.PopQuick | port/src/allocator.rs:234-243 | the head of the list is taken and becomes live, blocks and other lists unchanged |
| QuickFit.Allocator.PushQuick | port/src/allocator.rs:362-369 | a live block goes to the front of the list of its size |
| QuickFit.Allocator.TryFreePrefix | port/src/allocator.rs:292-303 | a non-empty run of units loses its largest aligned front piece, which becomes a block at the front of the list of its size, and exactly the rest is left; an empty run changes nothing |
| QuickFit.Allocator.FreePrefix | port/src/allocator.rs:273-287 | splitting ends and every byte of the prefix from its first unit boundary on is in a list block |
| QuickFit.Allocator.AllocTail | port/src/allocator.rs:265-269 | a new aligned block, the space before it freed, or none exactly when the tail is too short |
| QuickFit.Allocator.Malloc | port/src/allocator.rs:209-213 | the front of the list, else a tail block, else null exactly when neither exists; live, listed and unused memory stay a partition of the arena |
| QuickFit.Allocator.Free | port/src/allocator.rs:356-373 | the block goes to the front of the list of its size; freeing null does nothing |
| QuickFit.Allocator.Recycle | port/src/allocator.rs:209-373 | freeing a block and allocating with the same layout gives it back, and everything is as it was |
| QuickFit.Allocator.NothingLostIff | port/src/allocator.rs:281-287 | the only bytes in no block lie before the first unit boundary: none if and only if the arena starts on one |
| QuickFit.OddArenaLosesByte | port/src/allocator.rs:281-287 | an arena at address 100 whose first byte is in no block after an allocation |
| QuickFit.Allocator.OwnerWrites | port/src/allocator.rs:362-369 | nothing an owner writes into its live block disturbs the lists |
| Fdt.NodeFromIndex | core/src/fdt.rs:421-467 | the loop computes the scan the theorems are about |
| Fdt.Nodes | core/src/fdt.rs:470-525 | collecting the iterator gives the nodes the theorems are about |
| Fdt.Children | core/src/fdt.rs:107-121 | collecting the iterator gives the children the theorems are about |
| Fdt.TokenAt | core/src/fdt.rs:559-592 | at every position of an encoded block the parsed token is the one encoded there, and the next position is encoded too |
| Fdt.ParseProp | core/src/fdt.rs:574-585 | an encoded property is parsed with its name offset, value and extent |
| FdtPanics.ParseNoneIff | core/src/fdt.rs:559-592 | a position has no token exactly when fewer than four bytes are left or they hold none of the five tags |
| FdtTrees.NoPanic | core/src/fdt.rs:421-467 | no walk over an encoded tree decrements a depth of zero |
| FdtPanics.NodesPanicIff | core/src/fdt.rs:470-525 | on any block, `nodes` panics exactly when a node ends that has not begun |
| FdtPanics.ScanPanicsIff | core/src/fdt.rs:421-467 | on any block, the search for a node at a depth panics exactly when one ends that has not begun before one begins there |
| FdtPanics.StrayEndPanics | core/src/fdt.rs:421-467 | a block of one end token panics both |
| FdtTrees.NodesOfTree | core/src/fdt.rs:470-525 | `nodes` yields exactly the nodes of the encoded tree in preorder, with true depth and extent |
| FdtTrees.ChildrenOfNode | core/src/fdt.rs:107-121 | for every node `children` yields exactly its direct children, in order |
| FdtTrees.ParentUndoesChildren | core/src/fdt.rs:124-146 | `parent` of a child of any node is that node |
| FdtTrees.RootHasNoParent | core/src/fdt.rs:124-146 | `parent` of the root is none |
| Elf.Parse | port/src/elf.rs:158-272 | the exact verdict on every byte string: the first complaint in order, an overflow panic in the symbol-table lookup included, or the entry, the loadable segments in header order and the symbol table; `ElfReads.ImageReads` says what it is on written files |
| Elf.SegmentsSound | port/src/elf.rs:196-217 | no complaint exactly when all segments are sound and there are at most sixteen |
| Elf.AcceptedIsSound | port/src/elf.rs:158-232 | an accepted file has one to sixteen segments, each with its file part inside the file |
| Elf.SymbolsInside | port/src/elf.rs:234-269 | every entry of an accepted symbol table lies inside the file |
| ElfReads.ImageReads | port/src/elf.rs:158-272 | the reader's verdict on a written file, for every file header, any program headers, sections and tail: the first complaint about the header or the loadable segments, or the entry, exactly the program headers of type 1 in their order, each executable exactly when bit 0 of its flags is set, and the symbol table of the first suitable section |
| ElfReads.ChangedHeaderRefused | port/src/elf.rs:158-194 | a sound file with its magic, width, byte order or type changed, or the size of its program headers, is refused with the error for that |
| ElfReads.SegmentsRefusedIff | port/src/elf.rs:196-232 | no loadable segment exactly when no program header has type 1, a bad segment exactly when one of the first seventeen loadable ones is, too many exactly when there are more than sixteen and those are sound |
| ElfReads.CutRefused | port/src/elf.rs:158-194 | a sound file cut before the end of its program headers is refused as too short |
| ElfReads.PlainReads | port/src/elf.rs:158-272 | one to sixteen sound segments written to a file are read back as they were |
| ElfReads.OverflowsIff | port/src/elf.rs:255-269 | of a file with sound headers and segments, it panics exactly when the first symbol table ends past 2^64 |
| ElfReads.TableEndOverflows | port/src/elf.rs:255-269 | a file that panics it |
| Loader.CheckPlacement | aarch64/src/process.rs:698-727 | passes exactly when every segment starts at or above the image base, ends below the kernel half and overlaps none before it; returns the highest end |
| Loader.FindEntry | aarch64/src/process.rs:731-737 | the entry is accepted exactly when it lies in an executable segment |
| Loader.FillPage | aarch64/src/process.rs:760-780 | a page holds the file byte at every address of the file part and zero elsewhere |
| Loader.ElfLoader.MapOne | aarch64/src/process.rs:755-761 | the page gets a frame of its own, written through the kernel's mapping of it |
| Loader.LoadElf | aarch64/src/process.rs:687-808 | a load that does not panic leaves the new root translating exactly the planned pages, contents included, entry executable, stack pointer and heap base above every segment; with no kernel block over the stock it panics only for a refused file or an empty stock; `LoadedProcess.RightsIff` says what users may then do |
| Loader.PlannedOnce | aarch64/src/process.rs:698-793 | no address is planned twice and every stack page lies above every segment |
| Loader.FilePlanHas | aarch64/src/process.rs:750-782 | every page of every segment's span is planned with its attributes and contents |
| Loader.AllReachedIff | aarch64/src/process.rs:698-793 | in a loaded process the hardware reaches every planned page at its own address in its own frame if and only if the stack ends within 48 bits |
| Loader.LowKeysDiffer | aarch64/src/process.rs:708-711 | planned pages have page-table indices of their own when everything ends within 48 bits |
| Loader.FarSegmentUnreachable | aarch64/src/process.rs:708-711 | one segment at 2^48 above the image base passes every check, has indices of its own for every planned page, and no access reaches any of them |
| Loader.FarSegmentsAlias | aarch64/src/process.rs:708-711 | once two segments 2^48 apart are loaded, the hardware finds the second one's writable page at the address of the first one's text |
| Loader.FarFileAccepted | aarch64/src/process.rs:687-737 | a file that reads as the one far segment and that nothing refuses |
| Loader.TwoFileAccepted | aarch64/src/process.rs:687-737 | a file that reads as the two segments 2^48 apart and that nothing refuses |
| Loader.UserReads | aarch64/src/process.rs:741-782 | in a loaded process that ends within 48 bits the hardware takes every address of a segment's memory to a page with the segment's attributes that holds the file byte there, or zero |
| LoadedProcess.SegmentRights | aarch64/src/process.rs:741-782 | the hardware's walk of every address of an executable segment gives a page users may read and run, not write, and the kernel may not run; of any other segment one they may read and write, not run |
| LoadedProcess.StackRights | aarch64/src/process.rs:784-793 | of every address of the stack one they may read and write, not run |
| LoadedProcess.RightsIff | aarch64/src/process.rs:687-808 | in a process loaded within 48 bits users may read exactly the pages of segments and stack, write exactly the stack and the segments not executable, run exactly those that are |
| LoadedProcess.NothingWritableRuns | aarch64/src/process.rs:741-793 | in any loaded process no address is one users may both write and run |
| LoadedProcess.EntryRuns | aarch64/src/process.rs:731-737 | the entry point can be run and cannot be written |
| LoadedProcess.LowMemoryFaults | aarch64/src/process.rs:698-706 | nothing below the image base can be read, written or run |
| Timer.NextIsLeast | aarch64/src/timer.rs:350-351 | the re-armed deadline is the least one in phase past the claimer's clock |
| Timer.StepKeepsInv | aarch64/src/timer.rs:312-367 | every atomic operation of any number of `start` calls, of `cancel` and of the handler keeps the claim invariant |
| Timer.PeriodicFiresOnce | aarch64/src/timer.rs:340-363 | with any number of cores, the claims of one start strictly increase and stay in phase with it, so none is fired twice |
| Timer.ClaimReArms | aarch64/src/timer.rs:350-357 | a compare-exchange lands exactly when the loaded deadline is current, and then re-arms to the least deadline in phase past the clock |
| Timer.HandlerFiresIff | aarch64/src/timer.rs:312-367 | a core alone with the timer fires it if and only if it is active and due; then a one-shot is inactive, a periodic one active and due at the least deadline in phase past the clock |
| Timer.StartsWhole | aarch64/src/timer.rs:68-91 | a `start` with nothing in between makes it active and due its duration after the clock |
| Timer.StoppedStaysStopped | aarch64/src/timer.rs:96-99 | after a cancel or a callback that says stop, and until a start, the timer stays inactive, a one-shot does not fire, and a periodic one is fired by no core yet to load `active` |
| Timer.StoppedByIff | aarch64/src/timer.rs:312-367 | an active timer becomes inactive exactly by those and by the claim of a one-shot |
| Timer.CancelledFiresOnce | aarch64/src/timer.rs:340-363 | a reachable state in which a cancelled periodic timer is fired once more |
| Timer.OneShotFiresOncePerStart | aarch64/src/timer.rs:333-339 | between two fires of a one-shot, and before the first, there is a start |
| Timer.OneShotFiresOnTime | aarch64/src/timer.rs:312-339 | in every run that stores no deadline between a core's load and its swap, every fire has the deadline its start stored, at or before the core's clock |
| Timer.RestartFiresEarlyIff | aarch64/src/timer.rs:68-91 | whatever happens between the last store in a core's window and its swap, the fire is early if and only if that store's clock plus the duration is past the core's clock, always so if the restart read its clock no earlier |
| Timer.RestartCanFireEarly | aarch64/src/timer.rs:68-91 | a reachable state in which a restarted one-shot fires before its new deadline |
| Timer.CallbackRestartFiresEarly | aarch64/src/timer.rs:333-339 | a reachable state in which the callback on one core restarts the timer and a second core fires it early |
| Timer.Register | aarch64/src/timer.rs:130-145 | one slot per timer, no active timer dropped, refused exactly when eight other timers are active |
| Timer.ArmHardware | aarch64/src/timer.rs:160-175 | armed for the least deadline of an active registered timer, disarmed exactly when there is none |

## Left out

- QuickFit's misc list, its hash table and `realloc`, and layouts aligned above their adjusted size: the argument order, `unlink`'s returned head and an `expect` there do not support the documented behaviour.
- `BitmapPageAlloc::usage_bytes`, a sum over the same scan.
- The process heap watermark (`heap_grow`, `heap_alloc_page`), spawn and exec system calls beyond slot allocation and loading.
- Lock fairness beyond deadlock freedom and hand-over, and channel handlers on several cores at once.
- Weak memory ordering, TLB and barrier instructions, context-switch frames, stack canaries and device registers.
- Counter widths in the timer and the quick lists: ticks and heap addresses are unbounded numbers; in the page tables, virtual addresses overflow at 64 bits, the allocator's pages have 44-bit addresses, and a device range is any pair of numbers, of which descriptors keep 36 bits of frame.
- PageMap.MapToCorrect: the descriptor handed in is valid with its table bit clear, as every constructor of `Entry` builds it; physical addresses are whole frames.
- AspaceEffects.TablesOutOfReach: a user's own stores are not steps of the model; this says which pages they can reach.
- Aspace.AddressSpaces.Create: a panic is a `None` result; the state then keeps its invariant but the caller is gone.
- Loader.LoadElf: a panic is a `None` result, and where a kernel block covers a page of the stock its causes are not listed; stack pages get a frame but their first contents are whatever the page held.
- The devicetree header, properties, `reg` and `interrupts` decoding and path lookups, which only read fields at places the walks give.
- Timer.StepKeepsInv: one timer at a time, any number of calls of `start` on it; the handler's copy of the table is abstracted to any core looking at the timer at any moment.
- Device drivers, boot sequencing, console, tracing, backtrace, the x86_64 and riscv64 crates, build tooling and the user-side standard library.
