# Verified models of the MOS kernel and its file servers

MOS is a small MIPS R3000 kernel with user-space servers. This project models the parts of it whose correctness
spans several functions, and proves what they promise:

- **Virtual memory** (`PageTables`, `VmState`, `Pmap`): page pool, two-level page tables and TLB. Reference counts are
  exact, page tables are finite maps, and each TLB entry agrees with the table of the env that holds its ASID, across reuse
  of ASIDs, in every reachable state.
- **Copy-on-write fork** (`CowFork`): over every run, each env reads what it would read had `fork` copied every page.
- **Scheduler and IPC** (`Sched`, `Ipc`): the run list holds exactly the runnable envs, messages arrive in order, with
  their sender, and are never overwritten, and waiting is bounded. The run list is modelled with its links, so that removals
  of envs outside it count.
- **The kernel as a whole** (`System`): both halves together over every run of system calls, faults and interrupts.
- **Pipes** (`PipeBuffer`, `PipeClose`): the ring is a FIFO channel of the bytes written, and exactly what the tests for
  an empty and for a closed pipe find, under every interleaving.
- **FAT32** (`FatTable`, `FatContent`, `Fat`, `FatRun`, `LongNames`): the allocator and its summary, cluster chains,
  truncation, scattered writes, and long file names.
- **Native file system and calendar** (`Blocks`, `Calendar`), and the intrusive lists under all of this (`Queue`).

Code that changes state in place is a class or a method; its contract states the new state field by field or ties it to a
function of the old one, and the properties are proved about that function. Protocols between interrupted processes are state machines whose
steps are the single accesses to shared state.

`dafny verify dfyconfig.toml` checks everything.

## Where the code does not do what one would expect

Each of these is proved, as an exact condition or with a concrete case.

- `page_insert` counts mappings in 16 bits: the 65536th mapping of a page makes its count 0
  (`VmState.PageInsertedRefines`, `VmState.FilledWraps`).
- `env_alloc` ignores a failure of `env_setup_vm`, and keeps the directory page when no ASID is left. Counts stay exact
  iff memory and ASIDs are both available or both exhausted (`VmState.EnvAllocExact`).
- `sys_mem_alloc` does not give back the page it took when `page_insert` fails (`VmState.AllocMappedRefines`).
- `page_insert` does not mask `perm`: the entry names the right page iff the bits above the low 12 are among those of
  the page number (`PageTables.PermKeepsPage`). The other results take perm < 4096.
- A child's write to a private page leaks to the parent iff the page was given both PTE_D and PTE_COW
  (`CowFork.LeaksIffWritableCow`); `CowFork.AgreesIffMarkable` gives the exact condition for all pages.
- `sys_ipc_try_send` wakes the receiver before it looks up the page. It delivers and still reports an error iff the sender
  does not have the page, or the receiver lacks the table for it and no page is free (`Ipc.SendReportsDelivery`).
- `sys_set_env_status` breaks the run list iff it makes a blocked receiver runnable; the next send then makes the list run in a
  circle (`Sched.StatusSetExact`).
- `env_free` takes an env off the run list whether it is there or not, and never resets env_ipc_recving. Destroying a live env
  keeps the invariant iff it is not blocked in receive, and is in the list or has stale links that agree with the list
  (`Sched.DestroyedExact`); likewise a receive by an env that is not in the list (`Sched.BlockedExact`). An env that was never
  in the list has a null back link, which crashes the kernel.
- A TLB entry with PTE_G, which system calls let through, matches every ASID: translation follows the tables iff each cached
  global entry is in the table of every live env (`VmState.FollowsExact`).
- A priority of 0 acts as 2^32 (`Sched.PriorityIsSlices`).
- Removing an element that is not in a tail queue leaves the queue intact iff its stale links agree with the queue
  (`Queue.StaleUnlinkExact`); otherwise it can bring a former neighbour back (`Queue.StaleRemoveResurrects`).
- Pipe positions are 32-bit counters: the reader's test for an empty pipe is right iff fewer than 2^32 bytes were sent
  (`PipeBuffer.EmptyTestIsExact`), and from then on the reader starves (`PipeBuffer.WrapStarvesReader`).
- The closed test counts references while a fork may be half done: it answers "closed" iff the descriptors of the other end
  and the loose data pages are as many as the half-mapped descriptors of children in the making
  (`PipeClose.ClosedTestIsExact`), so an interrupted fork can fool it (`PipeClose.InterruptedForkFoolsTest`). Over runs in which
  no env is destroyed while it forks, every answer given while no fork is in progress is right (`PipeClose.NoFalseClose`).
- A `dup` of a descriptor to itself closes it and fails (`PipeClose.SelfDupCloses`).
- `fat_alloc_cluster_num` fails its assertion on the last free cluster, so it returns iff at least two are free
  (`Fat.FileSystem.AllocCluster`).
- On a full disk, freeing a cluster above a stale NxtFree leaves a wrong summary (`FatTable.FreeKeepsSummary`).
- `fat_file_writeBack` reports an error when a write ends exactly at the end of the cached stretch, although all bytes
  were written (`Fat.FileSystem.WriteBack`).
- The order byte of a long entry holds the number of entries iff it is below 64 (`LongNames.OrderRoundTrip`). The
  Microsoft FAT32 File System Specification, version 1.03, limits names to 255 characters, which need 20 entries.
- `fat_file_truncate` runs off the chain, and reads outside the table, iff the chain is shorter than FileSize/BY2CLUS+1, as
  after a growth that was only recorded; it loses clusters iff the chain is longer (`Fat.FileSystem.Truncate`).
- `fat_dir_lookup` restarts its countdown in each cluster: a file whose long entries continue in a new cluster is taken iff
  exactly one of the pieces left agrees, or its short name (`LongNames.ContinuedFileIsTakenIff`).
- `mytime_2_utc_sec` tests a variable that is never set: with daylight saving the conversions are inverse iff it happens to
  be nonzero (`Calendar.RoundTrip`).
- DayIndex is 7, not 0, on the Sundays for which Zeller's sum is not positive (`Calendar.DayIndexIsWeekday`,
  `Calendar.SundayWithIndexSeven`).

## Model

| member | source | states |
|---|---|---|
| `PageTables.VpnSplits` | kern/pmap.c:172-205 | the directory and table index are the two digits, to base 1024, of the page number, and the page holds the address |
| `PageTables.PermKeepsPage` | kern/pmap.c:245-249 | an unmasked perm leaves the page of an entry alone iff its high bits are among those of the page number |
| `PageTables.SetEntrySpace` | kern/pmap.c:220-250 | writing one table entry updates or deletes exactly one key of the map the directory stands for |
| `PageTables.AddedCounts` | kern/pmap.c:220-250 | when one place of the tables starts to name a page, the number of places naming it grows by one and no other count changes |
| `PageTables.RemovedCounts` | kern/pmap.c:294-310 | the converse: dropping one place lowers exactly that page's number of references |
| `VmState.FreeIffUnreferenced` | kern/pmap.c:126-160 | a page is on the free list iff it is managed, named by no table entry or directory, and not held between page_alloc and page_insert |
| `VmState.PageRemovedRefines` | kern/pmap.c:283-310 | page_remove deletes one key of one address space, leaves all other keys and envs, keeps exact counts and TLB coherence |
| `VmState.PageInsertedRefines` | kern/pmap.c:220-250 | page_insert updates one key, or returns -E_NO_MEM with the whole state unchanged, exactly when the table is missing and no page is free; it keeps the invariant iff the 16-bit count has room |
| `VmState.FilledWraps` | kern/pmap.c:245-249 | the 65536th mapping sets the count to 0 and breaks the invariant |
| `VmState.WalkedKeeps` | kern/pmap.c:172-205 | creating a table changes no address space and no mapped or held page |
| `VmState.AllocMappedRefines` | kern/syscall_all.c:152-170 | page_alloc then page_insert maps the first free page iff enough pages are free; otherwise nothing is mapped and a page that was taken stays held |
| `VmState.RefilledRefines` | kern/tlbex.c:4-50 | a refill that does not panic adds at most the faulting page, fresh and writable, and changes nothing else |
| `VmState.FreedBy` | kern/env.c:372-411 | the pages that become free with an env are exactly those that only it referenced |
| `VmState.RetiredCoherent` | kern/env.c:372-411 | no TLB entry survives for the ASID of a freed env |
| `VmState.FollowsExact` | kern/tlbex.c:34-50 | whatever TLB entry applies to a live env is the one in its table iff every cached global entry is in the table of every live env |
| `VmState.TranslationFollowsTables` | kern/tlbex.c:34-50 | while no env maps a page with PTE_G, translation follows the page tables |
| `VmState.EnvAllocExact` | kern/env.c:240-285 | env_alloc keeps the invariant iff memory and ASIDs are both there or both gone |
| `VmState.LostDirectory` | kern/env.c:194-206 | a counted directory page that no env holds makes the counts inexact |
| `VmState.StaleDirectory` | kern/env.c:240-285 | an env running on a directory page that was not counted for it makes the counts inexact |
| `Pmap.Kernel.constructor` | kern/pmap.c:89-116 | page_init: reserved pages have count 1, all others are free, the highest first, and the invariant holds |
| `Pmap.Kernel.PageAlloc` | kern/pmap.c:126-142 | takes the first free page, which is unreferenced and mappable, or reports none |
| `Pmap.Kernel.PgdirWalk` | kern/pmap.c:172-205 | finds the table of an address or creates it from a free page; fails iff there is none |
| `Pmap.Kernel.PageLookup` | kern/pmap.c:257-280 | returns what the map of the address space holds at the page number |
| `Pmap.Kernel.PageRemove` | kern/pmap.c:294-310 | the key leaves the map of the env; other keys, other envs and held pages stay; invariant kept |
| `Pmap.Kernel.PageInsert` | kern/pmap.c:220-250 | computes the state that VmState.PageInsertedRefines is about |
| `Pmap.Kernel.AsidAlloc` | kern/env.c:32-46 | takes the smallest unused ASID, or fails iff all are used |
| `Pmap.Kernel.EnvSetupVm` | kern/env.c:194-219 | takes and counts a directory page, or fails without effect iff none is free |
| `Pmap.Kernel.EnvAlloc` | kern/env.c:240-285 | the new state, with the smallest unused ASID, and that the invariant survives iff memory and ASIDs are both there or both gone |
| `Pmap.Kernel.EnvFree` | kern/env.c:372-411 | the env disappears, other envs and other ASIDs' TLB entries stay, none of its TLB entries survive, and exactly the pages only it held become free |
| `Pmap.Kernel.PassiveAlloc` | kern/tlbex.c:4-26 | serves exactly the addresses from 0x3fe000 on outside the page at USTACKTOP, 0x7f3fe000, for which enough pages are free |
| `Pmap.Kernel.DoTlbRefill` | kern/tlbex.c:34-50 | the loop ends with the entry of the faulting page in the TLB, or panics exactly when refused |
| `Pmap.Kernel.SysMemAlloc` | kern/syscall_all.c:152-170 | error cases without effect; else allocation and mapping |
| `Pmap.Kernel.PassPage` | kern/syscall_all.c:205-211 | fails without effect iff the source does not map the page, or the destination lacks the table and no page is free; else inserts it; invariant kept iff the count has room or the page is mapped there already |
| `Pmap.Kernel.SysMemMap` | kern/syscall_all.c:185-211 | error cases without effect; else the destination maps the source's page; invariant kept iff the count has room |
| `Pmap.Kernel.SysMemUnmap` | kern/syscall_all.c:223-241 | error cases without effect; else the page is removed |
| `Pmap.Kernel.Run` | kern/syscall_all.c:152-430 | every sequence of memory system calls, page transfers by IPC, refills, env_alloc and env_free: each entry has its effect under the exact condition for keeping the invariant and none otherwise, and every state on the way has exact counts and a coherent TLB |
| `CowFork.RefinesMeansSameReads` | user/lib/fork.c:16-122 | refinement between the copy-on-write and the eager machine means that every env reads the same bytes in both |
| `CowFork.CowCopySimulates` | user/lib/fork.c:16-66 | cow_entry changes nothing that any env can see, and keeps the invariant |
| `CowFork.StoreSimulates` | user/lib/fork.c:16-66 | a store, with the faults it takes, is a store of the eager machine |
| `CowFork.DupKeeps` | user/lib/fork.c:79-122 | duppage keeps: a page mapped twice without PTE_LIBRARY is writable nowhere, and PTE_COW marks only write-protected private pages or is idle on writable shared ones |
| `CowFork.DupSimulates` | user/lib/fork.c:79-122 | duppage looks like an eager copy of the page |
| `CowFork.ForkSimulates` | user/lib/fork.c:135-165 | the loop of fork looks like an eager copy of all pages below the stack top |
| `CowFork.ForkReads` | user/lib/fork.c:154-161 | after fork the child reads, at each address below USTACKTOP whose page the parent has, what the parent read, and no other read of any env changes |
| `CowFork.DupBelowPages` | user/lib/fork.c:154-161 | the loop changes no byte and names for the child exactly the physical pages that the parent has below the bound |
| `CowFork.EagerForkIsSnapshot` | user/lib/fork.c:135-165 | the eager fork gives the child exactly the parent's pages of that moment and changes nothing else |
| `CowFork.EagerStoreReads` | user/lib/fork.c:16-66 | what a store means: that byte of that page is read back through each of its names if the page can be written, and every other read is as before |
| `CowFork.EagerAllocReads` | kern/syscall_all.c:152-170 | a page given by sys_mem_alloc reads zero, takes stores as its permissions say, and is nobody else's |
| `CowFork.EagerShareReads` | user/lib/fd.c:132-149 | a shared page mapped a second time reads the same under both names, now and after every store to either |
| `CowFork.RunSimulates` | user/lib/fork.c:16-165 | over every run of allocations, stores, forks, sharing and unmapping by any envs the refinement holds |
| `CowFork.ForkReadsLikeEagerCopy` | user/lib/fork.c:16-165 | over every run each env reads at each address what it would read had fork copied every page |
| `CowFork.LeaksIffWritableCow` | user/lib/fork.c:95-122 | for every state, page, offset and nonzero byte: a child's write to a fresh private page is seen by the parent iff the page has PTE_D and PTE_COW |
| `CowFork.AgreesIffMarkable` | user/lib/fork.c:79-122 | the guard on allocations is exact: parent and child read as with eager copying iff PTE_COW goes with PTE_D just on shared pages |
| `CowFork.Machine.CowEntry` | user/lib/fork.c:16-66 | panics iff the page is not copy-on-write, else replaces it by a private copy, through UCOW |
| `CowFork.Machine.Duppage` | user/lib/fork.c:79-122 | computes the state that CowFork.DupSimulates is about |
| `CowFork.Machine.Fork` | user/lib/fork.c:135-165 | keeps the invariant and refines the eager fork of every machine it refined before |
| `Sched.ScheduleKeeps` | kern/sched.c:17-55 | schedule keeps the run-list invariant and runs a runnable env |
| `Sched.ScheduleIs` | kern/sched.c:17-55 | written out: it switches iff there is no current env, yield is set, the count is 0 or the env is not runnable; a runnable current env goes to the tail; the head runs with its priority less one; it panics iff it must switch and the list is empty |
| `Sched.YieldPassesOn` | kern/sched.c:17-55 | with yield set the current env is chosen again only if it is alone |
| `Sched.StepKeeps` | kern/syscall_all.c:253-432 | every kernel entry, under its exact condition, keeps: the links form a list, an env is in it, once, iff runnable; a receiver is not runnable; no value is overwritten before the next receive |
| `Sched.StepLogs` | kern/syscall_all.c:391-432 | one kernel entry adds to the messages accepted for an env exactly the message (value, id of the sender, permissions) of a send made to it while it was receiving; a new env starts with none |
| `Sched.RunLogs` | kern/syscall_all.c:391-432 | over every run the messages accepted for an env are those, computed from the operations of the run alone |
| `Sched.RunKeeps` | kern/env.c:18 | over every run what the receives of an env left in env_ipc_value, env_ipc_from and env_ipc_perm is, in order and with the sender, what the operations of the run sent to it while it was receiving; none is overwritten before the next receive |
| `Sched.StatusSetExact` | kern/syscall_all.c:284-306 | the invariant survives iff no blocked receiver is made runnable; else the next send inserts it twice and its link leads to itself |
| `Sched.BlockedExact` | kern/syscall_all.c:359-373 | a receive keeps the invariant iff the caller is in the run list or its stale links do no harm |
| `Sched.DestroyedExact` | kern/env.c:400-411 | destroying a live env keeps the invariant iff it is not blocked in receive, and is in the run list or has harmless stale links |
| `Sched.SafeIsRemovable` | kern/env.c:410 | whether such a removal does harm can be read off the link fields and the status of three envs |
| `Sched.PriorityIsSlices` | kern/sched.c:38-54 | a chosen env keeps the processor through exactly as many calls as its priority, 2^32 for priority 0, if only timer interrupts happen |
| `Sched.ScheduleBringsNearer` | kern/sched.c:17-55 | each call of schedule runs a waiting env or lowers its bound, and lets no env overtake it |
| `Sched.EffectDoesNotDelay` | kern/syscall_all.c:253-432 | no block, wake-up, exit or status change moves a waiting env back |
| `Sched.BoundedWaiting` | kern/sched.c:17-55 | whatever happens and for all priorities, a runnable env that was not chosen has seen fewer calls of schedule than its bound, and stays ahead of all envs that were behind it or not in the list |
| `Sched.WaitAtIndex` | kern/sched.c:17-55 | at index k behind the current head the bound is the remaining count plus the slices at 1..k-1 plus 1 |
| `Sched.Kernel.Sched` | kern/sched.c:17-55 | the new run list, current env and count, field by field, or a panic iff it must switch and the list is empty |
| `Sched.Kernel.IpcRecv` | kern/syscall_all.c:359-373 | the caller leaves the run list, is not runnable, receiving, with the address given; every other field and env is kept; the head of the list runs |
| `Sched.Kernel.Deliver` | kern/syscall_all.c:406-420 | a receiving env gets the value, the id of the sender and the permissions, stops receiving and is appended runnable; every other field and env is kept; nothing happens otherwise |
| `Ipc.SendReportsDelivery` | kern/syscall_all.c:391-432 | computed from the tables of sender and receiver: a send that returns 0 was delivered, a delivered one fails iff the sender lacks the page or the receiver lacks the table and no page is free, and which error each case returns |
| `Ipc.GivePage` | kern/syscall_all.c:421-430 | the page of the sender is mapped at the address of the receiver with the permissions given, or which error is returned without effect; the invariant survives iff the 16-bit count has room |
| `Ipc.TrySend` | kern/syscall_all.c:391-432 | the result; the receiver woken at the tail with value, sender and permissions, all other fields and envs kept; its address space with the sender's page mapped, and the exact condition for the counts to stay exact |
| `Ipc.Receive` | kern/syscall_all.c:353-374 | refuses exactly the nonzero addresses below 0x3fe000 or from 0x7f400000 on, without effect; else the caller blocks with that address |
| `Sched.Kernel.SetEnvStatus` | kern/syscall_all.c:284-306 | refuses any other status without effect; else the status is the one given, every other field and env is kept, and the run list has the env appended, deleted or untouched according to the old and new status; the invariant survives iff no blocked receiver is made runnable |
| `Sched.Kernel.EnvFree` | kern/env.c:405-411 | the env is free and deleted from the run list, every other field and env is kept, for any live env with a back link |
| `Sched.Kernel.EnvDestroy` | kern/env.c:416-428 | the same, and the head of the list runs iff the env was current |
| `Sched.Kernel.Exofork` | kern/syscall_all.c:253-275 | the child is not runnable, has the priority of its parent and no messages; every other field and env is kept |
| `Sched.Kernel.constructor` | kern/env.c:156-170 | all envs free, an empty run list; the invariant holds |
| `Queue.ListPrependIsPrepend` | include/queue.h:141-147 | LIST_INSERT_HEAD acts as prepend; every back link designates the cell that points at its element |
| `Queue.ListInsertIsInsert` | include/queue.h:115-123 | LIST_INSERT_AFTER acts as insertion after an element |
| `Queue.ListUnlinkIsDelete` | include/queue.h:155-160 | LIST_REMOVE acts as deletion |
| `Queue.PrependIsPrepend` | include/queue.h:191-199 | TAILQ_INSERT_HEAD acts as prepend; the tail pointer designates the final null cell |
| `Queue.AppendIsAppend` | include/queue.h:201-207 | TAILQ_INSERT_TAIL acts as append |
| `Queue.UnlinkIsDelete` | include/queue.h:227-234 | TAILQ_REMOVE of an element of the queue acts as deletion |
| `Queue.StaleUnlinkExact` | include/queue.h:227-234 | TAILQ_REMOVE of an element outside the queue leaves the queue intact iff its links agree with the queue wherever they lead into it |
| `Queue.RotationIsRotation` | kern/sched.c:44-47 | remove then insert at the tail is a rotation |
| `Queue.StaleRemoveResurrects` | kern/env.c:410 | with [0, 1, 2], after 1 and then 2 were removed, a second removal of 1 puts 2 back |
| `Queue.List.InsertHead` | include/queue.h:141-147 | the writes in place, against the sequence |
| `Queue.List.InsertAfter` | include/queue.h:115-123 | the writes in place, against the sequence |
| `Queue.List.Remove` | include/queue.h:155-160 | the writes in place, against the sequence |
| `Queue.TailQueue.InsertHead` | include/queue.h:191-199 | the writes in place, against the sequence |
| `Queue.TailQueue.InsertTail` | include/queue.h:201-207 | the writes in place, against the sequence |
| `Queue.TailQueue.Remove` | include/queue.h:227-234 | the writes in place: deletion for an element, and the exact condition for any other |
| `System.Machine.Run` | kern/syscall_all.c:152-432 | over every run of the whole kernel each entry has its effect on both halves under its exact condition and none otherwise, and in every state on the way both halves keep their invariants, have the same live envs, and receivers wait for accepted addresses |
| `System.Machine.DoExofork` | kern/syscall_all.c:253-275 | iff an env, a page and an ASID are free, both halves gain the same env, with an empty address space; they stay in step |
| `System.Machine.DoDestroy` | kern/env.c:372-428 | under the exact condition the env leaves both halves, which stay in step |
| `System.Machine.DoSend` | kern/syscall_all.c:391-432 | under the exact condition the receiver gets the message and the page, both halves stay in step; otherwise nothing changes |
| `System.Machine.DoReceive` | kern/syscall_all.c:353-374 | under the exact condition the caller blocks, both halves stay in step; otherwise nothing changes |
| `System.Machine.DoSetStatus` | kern/syscall_all.c:284-306 | under the exact condition the status is set, both halves stay in step; otherwise nothing changes |
| `PipeBuffer.NextKeeps` | user/lib/pipe.c:131-210 | every access keeps: at most 32 bytes under way, slot k mod 32 holds the k-th byte, delivered bytes are those sent |
| `PipeBuffer.RunKeeps` | user/lib/pipe.c:131-210 | the same over every interleaving of any length |
| `PipeBuffer.NextRefines` | user/lib/pipe.c:131-210 | each access to the ring and its positions is one step of a channel that has neither: the writer's test finds room iff fewer than 32 bytes are under way, the reader's finds a byte iff there is one and fewer than 2^32 were sent |
| `PipeBuffer.PipeIsChannel` | user/lib/pipe.c:131-210 | under every interleaving the bytes sent are those passed to the writes that found room, and the bytes got are those in order, computed from the steps alone |
| `PipeBuffer.Fifo` | user/lib/pipe.c:131-210 | in every reachable state the bytes delivered are a prefix of the bytes written, at most 32 are under way, and the empty test is right iff fewer than 2^32 bytes were sent |
| `PipeBuffer.EmptyTestIsExact` | user/lib/pipe.c:143-160 | the reader's test tells an empty pipe iff fewer than 2^32 bytes were sent; afterwards it finds a pipe empty that never is |
| `PipeBuffer.WrapStarvesReader` | user/lib/pipe.c:143-160 | after 2^32 bytes a reader at its test gets nothing more, whatever happens |
| `PipeClose.FreshPipeIsValid` | user/lib/pipe.c:36-82 | a new pipe meets the invariant, and all its descriptors are housed |
| `PipeClose.NextKeeps` | user/lib/fd.c:95-151 | every mapping step of dup, close and fork, every exit and destruction, every task switch and every step of the closed test keeps the invariant |
| `PipeClose.CopiesKeeps` | user/lib/fork.c:157-161 | a child in the making has exactly the pages passed on so far, descriptor pages before data pages |
| `PipeClose.RunKeeps` | user/lib/fd.c:95-151 | so does every run |
| `PipeClose.DupIsCopy` | user/lib/fd.c:117-151 | a dup without interruption makes the new descriptor one of the same end with the same data page, and changes nothing else |
| `PipeClose.DupEnds` | user/lib/fd.c:146-151 | however often a dup was interrupted, its last mapping gives the new descriptor the end of the old one, with its data page |
| `PipeClose.FailedDupCloses` | user/lib/fd.c:153-160 | a dup that fails at either mapping leaves the new descriptor closed and changes nothing else |
| `PipeClose.SelfDupCloses` | user/lib/fd.c:117-151 | a dup of a descriptor to itself closes it |
| `PipeClose.CloseIsRemoval` | user/lib/fd.c:95-106 | a close removes exactly that descriptor |
| `PipeClose.ForkEnds` | user/lib/fork.c:154-161 | however often a fork was interrupted, at its end parent and child have the same descriptors, of the same ends, and all of them whole |
| `PipeClose.DestroyEnds` | kern/env.c:372-411 | a destroyed env has no descriptor left, and the others keep theirs |
| `PipeClose.TestAnswers` | user/lib/pipe.c:95-116 | the closed test without interruption answers, by comparing the two counts of that moment |
| `PipeClose.TestStartsOver` | user/lib/pipe.c:95-116 | an interrupted test starts over with the run number of the moment |
| `PipeClose.HalfMappedIsUnborn` | user/lib/fork.c:157-161 | only a child in the making has a descriptor page without its data page |
| `PipeClose.PipeCoversEnds` | user/lib/pipe.c:95-116 | while no child is half made the pipe page has at least as many references as both ends together |
| `PipeClose.ClosedTestIsExact` | user/lib/pipe.c:95-116 | the answer is "closed" iff the other end's descriptors and the loose data pages are as many as the half-mapped descriptors |
| `PipeClose.ClosedTestIsSound` | user/lib/pipe.c:95-116 | while no child is half made, "closed" is answered only if the other end has no descriptor anywhere, and is answered if it has none and no dup or close is under way |
| `PipeClose.HousedKeeps` | user/lib/fork.c:157-161 | every descriptor stays that of an env that runs or that some env is making, unless an env is destroyed while it forks |
| `PipeClose.NoForkIsWhole` | user/lib/fork.c:157-161 | then no descriptor is half mapped while no fork is in progress |
| `PipeClose.NoFalseClose` | user/lib/pipe.c:95-116 | along every run in which no env is destroyed while it forks, each answer given while no fork is in progress is right |
| `PipeClose.ClosedIsForever` | user/lib/pipe.c:95-116 | an end that is gone stays gone |
| `PipeClose.TwoReadersIsValid` | user/lib/pipe.c:36-82 | two readers and a writer meet the invariant |
| `PipeClose.ForkBegins` | user/lib/fork.c:148-157 | the writer begins a fork |
| `PipeClose.ForkIsInterrupted` | user/lib/fork.c:157-161 | the fork is interrupted after one page |
| `PipeClose.InterruptedForkFoolsTest` | user/lib/pipe.c:95-116 | in that state the test of the other reader answers "closed" although the writer is there |
| `FatTable.FreeKeepsSummary` | fs/fatfs.c:247-257 | freeing an in-use cluster keeps the summary iff some cluster was free or NxtFree is not below it |
| `FatTable.LoweredIs` | fs/fatfs.c:247-257 | NxtFree becomes the smaller of the two numbers, a negative one counting as large |
| `FatTable.ChainIsAcyclic` | fs/fatfs.c:619-643 | a chain that reaches the end mark visits no cluster twice |
| `FatTable.AppendKeeps` | fs/fatfs.c:619-643 | linking a fresh cluster extends the chain by it and changes only its last entry and a free one |
| `FatTable.TruncatedKeeps` | fs/fatfs.c:1441-1471 | cutting a chain leaves its first clusters as a chain, zeroes the entries of those released and changes no entry outside the chain |
| `FatTable.FilesKept` | fs/fatfs.c:619-643 | an operation that touches only a file's own clusters and free ones keeps all other files intact and disjoint |
| `Fat.ClusterRoundTrip` | fs/fatfs.c:477-479 | a 32-bit cluster number is the sum of its four bytes with their weights, and survives being stored in them |
| `Fat.Entry.SetFirst` | fs/fatfs.c:1480-1485 | the four bytes written spell the number, and are read back as it |
| `Fat.FileSystem.ReadFsInfo` | fs/fatfs.c:356-382 | establishes that FreeCount is the number of free clusters and NxtFree the smallest |
| `Fat.FileSystem.AllocCluster` | fs/fatfs.c:259-276 | returns iff two clusters are free, takes the smallest, marks it with 0x0fffffff, keeps the summary |
| `Fat.FileSystem.FreeCluster` | fs/fatfs.c:247-257 | the entry, count and NxtFree after a release; clusters beyond the disk are ignored |
| `Fat.FileSystem.AllocThenFree` | fs/fatfs.c:247-276 | allocate then free restores the table and both fields |
| `Fat.FileSystem.WalkCluster` | fs/fatfs.c:619-643 | returns the k-th cluster; when extending, the old chain followed only by clusters that were free; fails iff too few are free |
| `Fat.FileSystem.Truncate` | fs/fatfs.c:1441-1471 | runs off the chain iff it has fewer than FileSize/BY2CLUS+1 clusters; else keeps exactly the first newsize/BY2CLUS+1, or none, frees exactly those up to FileSize/BY2CLUS+1, raises FreeCount by their number and leaves other clusters in use alone; no cluster is lost iff the chain has exactly that length |
| `Fat.FileSystem.SetSize` | fs/fatfs.c:1475-1490 | truncation to the clusters that the new size needs, one first cluster, the smallest free, or only a recorded size; exactly when it fails; chain intact, clusters counted |
| `Fat.FileSystem.TotalClusters` | fs/fatfs.c:601-617 | the number of links of a chain |
| `Fat.FileSystem.ClusterVa` | fs/fatfs.c:1493-1508 | the k-th cluster of the file iff it exists and is cached |
| `Fat.FileSystem.WriteBack` | fs/fatfs.c:1512-1538 | exactly the bytes that fit below the end of the cached stretch are replaced by the source's, no other byte changes, and success is reported iff the write ends strictly below it |
| `Fat.FileSystem.GetCluster` | fs/fatfs.c:673-690 | returns the k-th stretch of the flat content, extending the chain if needed |
| `FatContent.FlatSlice` | fs/fatfs.c:673-690 | reading cluster by cluster returns the flat content |
| `FatContent.FlatStore` | fs/fatfs.c:1524-1526 | a store into a cluster is a store at the corresponding position of the file |
| `FatContent.OtherFilesKeepTheirBytes` | fs/fatfs.c:1512-1538 | a write changes no file that shares no cluster with the one written |
| `FatRun.Run` | fs/fatfs.c:619-643 | over every run of extending walks and size changes on any files, up to the first that is not possible, each operation reshapes the file it names, exactly as stated, and no other; the chains stay intact, acyclic, allocated and disjoint, and the summary exact |
| `FatRun.ExtendFile` | fs/fatfs.c:619-643 | one extending walk: exactly when it fails, how long the chain is then, and what it keeps |
| `FatRun.ResizeFile` | fs/fatfs.c:1475-1490 | one size change: exactly when it fails, the recorded size, which clusters remain, and what it keeps |
| `LongNames.OrderRoundTrip` | fs/fatfs.c:982 | the order byte gives back the number of entries iff it is below 64 |
| `LongNames.SameIffAgrees` | fs/fatfs.c:493-512 | an entry matches iff its piece of the name, with its terminator, agrees with the query; padding never matters |
| `LongNames.AllAgreeIffEqual` | fs/fatfs.c:493-512 | all entries of a match the query b iff a = b, whatever follows b in memory, also for lengths divisible by 13 |
| `LongNames.LongEntry.FillName` | fs/fatfs.c:875-906 | unit by unit: the characters, the terminator and the padding of the piece, reading nothing past the terminator |
| `LongNames.LongEntry.Compare` | fs/fatfs.c:481-512 | computes the comparison of an entry in place |
| `LongNames.CompareUnits` | fs/fatfs.c:502-511 | the loop computes `Same`, whose meaning `LongNames.SameIffAgrees` gives |
| `LongNames.ShortNameIs` | fs/fatfs.c:41-59 | for every query: up to eight characters before the first dot, small letters moved down by 32, blanks up to 8, then the first three after that dot as they are, blanks up to 11; no extension if more than eight characters precede the dot |
| `LongNames.CaseOfStemDoesNotMatter` | fs/fatfs.c:41-59 | two queries that differ only in the case of letters before the first dot have the same short name |
| `LongNames.FillStem` | fs/fatfs.c:46-49 | the first loop, in place: the capitals of the stem, blanks behind |
| `LongNames.FillExtension` | fs/fatfs.c:50-57 | the second loop, in place: the characters behind the dot up to the terminator, blanks behind, the stem kept |
| `LongNames.CompareFileName` | fs/fatfs.c:41-59 | says whether the name field is the short name of the query |
| `LongNames.ShortNameOf` | fs/fatfs.c:41-59 | the short name compared depends on the query alone, not on what follows it |
| `LongNames.CheckAtShort` | fs/fatfs.c:520-533 | the countdown is 0 at the short entry of a file iff its long name is the query |
| `LongNames.FileIsTakenIffNamed` | fs/fatfs.c:520-533 | the lookup stops within the entries of a file iff the query names it, at its short entry, and otherwise leaves the countdown positive |
| `LongNames.ContinuedFileIsTakenIff` | fs/fatfs.c:517-533 | a file whose entries continue in a new cluster is taken there iff its short name is the query's or exactly one of the pieces left agrees |
| `LongNames.HeadPassedOver` | fs/fatfs.c:515-545 | a file that continues into a cluster is taken there iff `HeadTaken`, and otherwise leaves the countdown positive |
| `LongNames.LookupMisses` | fs/fatfs.c:515-545 | a cluster without a file that is taken is passed over, also if a file goes on beyond it |
| `LongNames.LookupFinds` | fs/fatfs.c:515-545 | otherwise the first file that the query names is found, at its short entry |
| `LongNames.LookupInCluster` | fs/fatfs.c:520-540 | the inner loop returns the first entry at which it stops |
| `LongNames.FoundFromIsFirst` | fs/fatfs.c:515-545 | what is found is found in the first cluster in which anything is taken |
| `LongNames.Lookup` | fs/fatfs.c:515-545 | over all clusters, also with files that cross them, finds the first file that is taken, and reports none iff there is none |
| `LongNames.StoreName` | fs/fatfs.c:978-1002 | writes the entries of a name in descending order and its short entry, and nothing else |
| `Blocks.MaskDoubles` | fs/fs.c:185-187 | bit k of a bitmap word is the one of value 2^k |
| `Blocks.SetIsInsert` | fs/fs.c:194-206 | setting a bit of the bitmap words inserts one block number into the set they represent |
| `Blocks.ClearIsDelete` | fs/fs.c:213-224 | clearing a bit deletes one block number |
| `Blocks.Disk.BlockIsFree` | fs/fs.c:180-190 | membership in that set, within the disk |
| `Blocks.Disk.FreeBlock` | fs/fs.c:194-206 | adds the block, unless it is 0 or beyond the disk |
| `Blocks.Disk.AllocBlock` | fs/fs.c:213-226 | takes the smallest free block from 3 on, or fails iff there is none |
| `Blocks.Disk.ClearBlock` | fs/fs.c:439-453 | the pointer becomes 0 and its block free; missing pointers are ignored; no other pointer block changes |
| `Blocks.KeptIsCovered` | fs/fs.c:704-709 | block k is kept iff newsize is not 0 and k * 4096 <= newsize, and the direct pointers suffice iff newsize is below 40960 |
| `Blocks.PointerPlaces` | fs/fs.c:363-400 | the first ten pointers are in the file itself, each of the others at its own index of the indirect block |
| `Blocks.Disk.Truncate` | fs/fs.c:701-726 | pointer k is unchanged iff newsize is not 0 and k * 4096 <= newsize and is 0 otherwise; exactly the blocks dropped become free, with the indirect block when newsize is below 40960; other pointer blocks are unchanged; for a file that owns its blocks the number of free blocks grows by the number dropped and it owns those kept |
| `Blocks.TruncationConserves` | fs/fs.c:701-726 | the number of free blocks grows by the number dropped, and the blocks kept stay in use and distinct |
| `Calendar.ToCivil` | fs/time.c:87-146 | a valid date and time with the given second count |
| `Calendar.ToSeconds` | fs/time.c:149-188 | the second count of a date, less an hour if the unset variable and the flag are nonzero, modulo 2^32 |
| `Calendar.RoundTrip` | fs/time.c:87-188 | every 32-bit second count survives conversion to a date and back iff there is no daylight saving or the unset variable is nonzero |
| `Calendar.RoundTripCivil` | fs/time.c:87-188 | every valid date in range survives conversion to seconds and back |
| `Calendar.DateIsUnique` | fs/time.c:87-146 | a day number has only one valid date |
| `Calendar.WeekCountsDays` | fs/time.c:57-84 | Zeller's sum differs from the day number plus 4 by whole weeks, so it agrees with the year and month loops |
| `Calendar.DayIndexIsWeekday` | fs/time.c:57-84 | DayIndex is the day number plus 4 modulo 7, except that it is 7 on Sundays whose sum is not positive |
| `Calendar.SundayWithIndexSeven` | fs/time.c:80-83 | 5 March 2000 has DayIndex 7 |

## Left out

- The kernel half of page directories (from UTOP on) and faults on the page-table window: the code neither counts nor
  frees those entries.
- Env identifiers (`mkenvid`, `envid2env`): the identifier of a new env is given, memory calls take the env that was found, and
  `sys_ipc_try_send` is given an existing target, since the code uses an uninitialised pointer when the lookup fails.
- The ASID bitmap is a sequence of flags, and permissions are the low 12 bits of an entry.
- Page contents in `Pmap` (in `CowFork` they are modelled), and exhaustion of memory inside `fork` and `cow_entry`,
  which panic.
- CowFork.RunSimulates: assumes that only the fault handler maps UCOW, that private pages reach other envs only by duppage, and
  takes each duppage as one step.
- The pages that `env_init` takes for its template directory; they are never freed and named by no env.
- `env_create` at boot, the copying of registers, and the wrap-around of env_runs. The slice counter of the scheduler is taken
  modulo 2^32, as two's complement makes it.
- `sys_ipc_try_broadcast`.
- A read of 0 bytes is not claimed to mean that a pipe was drained: the tests for empty and for closed are separate steps.
- PipeBuffer.RunKeeps: one reader and one writer.
- FAT disk layout, loading, caching and writing back of sectors; the table is in memory, the root directory is cluster 2
  and 0x0fffffff the only end mark. A failure to map the page of a fresh cluster is not modelled.
- Fat.FileSystem.Truncate: newsize is at most the file size, as its only caller makes sure; what a read outside the table returns
  is not modelled.
- Fat.FileSystem.FreeCluster: the last two clusters of the disk can be freed but are outside the range that is scanned for
  the summary, which therefore does not count them.
- FatRun.Run: stops at an extending walk of an empty file past its first cluster, which the code starts at the reserved entry 0.
- LongNames.Lookup: short entries that are read-only, hidden, system or volume labels, which the code takes for long ones; finding
  free slots, short-name aliases, checksums and removal of files are not modelled either.
- Growth of native files, their directories and block cache.
- File server dispatch, client wrappers, shell, utilities, ELF loading, printing, devices, traps and assembly.
