# Proofs about a kernel, a file system and a shell

This project models the most intricate parts of a repository of operating-system
coursework in Dafny and proves what they are for.

* **Physical memory** (`free_list`, `page_tables`, `pmap`): the page allocator with its
  intrusive free list and 16-bit reference counts, and two-level x86 page tables (section
  4.3 of the Intel SDM, Volume 3A). Every place that can hold a counted reference is a
  slot; a count is exact when it is the number of slots that name the page. Frames are
  sequences of 1024 words and the page-table code writes those words, so that "one key of
  the flat map changes" is a statement about memory, not about a map.
* **Environments** (`env_table`, `env`): the slot table over those address spaces, with
  ids that wrap around on 32 bits, and what an old id means over a whole run.
* **The multi-level feedback queue** (`mlfq_spec`, `mlfq`): four ring buffers against a
  policy on sequences, with conservation and bounded waiting.
* **Copy-on-write fork** (`cow_fork`, `cow_pages`): every run refines one in which each
  environment has its own copy of every page, first over a flat map and then on the
  page-table words, counts and free list of `pmap`.
* **Several CPUs under one lock** (`smp`): a state machine over single steps, with the
  exact set of steps that can break exclusivity.
* **Messages** (`ipc`, `syscalls`): deliveries and receives over whole runs, the page that
  is passed, and the kernel state in which environments, mailboxes and run queues meet.
* **fisopfs** (`dir_content`, `fs_tree`, `fs_table`, `fs_disk`, `fisopfs`): a flat inode
  table and newline-separated directory contents that must describe one tree, through
  every operation and through a dump and load.
* **The shell** (`pipeline`, `shell_exec`, `parsing`, `rendering`): descriptor tables of
  every process of a pipeline, and a parser that gives back what was written.
* **Two library routines** (`kdebug`, `numbers`): the binary search over stabs, and the
  number printer with its parser.

Code that updates state in place is a class or a method with loops, proved against a
function on values; the theorems are lemmas about those functions. The clock, the user and
the group of a new inode, the environment variables of the shell, the set of files that
can be opened, the frame that a user-level page fault gets and the initial contents of
memory are parameters, as is the point at which reading a saved file system fails. Types and
constants that several parts share are in `env_types`, `word32` and `strings`.

## Where the code and its comments disagree

The model follows the code.

* `pp_ref` has sixteen bits and nothing checks it. `PageInsert` says exactly which call
  makes a count wrong.
* `sys_page_map` promises -E_INVAL for an inappropriate `perm`, and neither it nor
  `env_page_map` checks. `page_insert` stores `pa | perm | PTE_P`, so that bits above the
  low twelve change which frame the entry names. The mapping is the one asked for, and the
  counts stay exact, if and only if those bits are set in the address of the page anyway
  (`EntryNames`, `PageInsert`, `EnvPageMap`, `SysPageMap`); `ForgedEntry` is an input where
  they are not, and `MiscountedLater` what it costs. With it goes what keeps `pa2page` from
  panicking in `env_free`: that every entry names a page in memory (`PagesInMemory`).
* `env_page_alloc` keeps the page that it allocated when `page_insert` then fails.
* `user_mem_check` records `va` itself when the end of the range lies above `UTOP`. Both
  the sum `va + len` and its rounding wrap at 2^32. Ranges whose end lies in the last page
  below 2^32 are all accepted. A range that reaches 2^32 is accepted when its wrapped and
  rounded end is at most `UTOP` and either not above the page of `va` or just behind that
  page while `va` is accessible; `KernelRangeAccepted` gives one that starts in the kernel.
* The guard of `pgfault` is a bitwise and of two values that never share a bit. It never
  panics, so that a write fault on a read-only page gives a private copy.
* `sys_env_set_status`, `sys_ipc_try_send` and a second destroy do not ask whether another
  CPU runs the environment; `DisciplineIsExact` says that these are the only ways to lose
  exclusivity, and `UncheckedStepsReachable` and `DestroyTwice` that disciplined runs lead
  there.
* `sys_env_set_priority` by one environment can move another one back: the head of the
  queue fills the hole. `BoundedWaiting` counts these setbacks.
* `env_destroy` leaves the entry of its environment in the queues, and nothing else takes
  entries out (`EntriesStay`). `sched_push_env` does not ask for room: the push that finds
  a full ring loses the first entry (`Append`).
* `sys_ipc_recv` opens the mailbox before it refuses an address. `sys_ipc_try_send` leaves
  `env_ipc_perm` as it was when the receiver wants no page (its comment says 0). It reads
  `*srcpte` unasked, and `page_lookup` stores that pointer only for a mapped page: where
  its comment promises -E_INVAL for an address that the sender does not map, the code
  follows a pointer that was never set.
* A read error while fisopfs loads leaves a table without a root directory, and unmounting
  then overwrites the saved file with it.
* mkdir and create of fisopfs make the inode first: without a parent directory they return
  an error and leave the inode behind. A write inside a file cuts off what follows.
* The parser exempts `-name=value` by looking for a dash anywhere in the word.
* A word with a `>` behind its second character redirects nothing and is no argument either; one
  with a `<` behind its first takes everything but that first character for the file.
* An empty result of `stab_binsearch` does not mean that `addr` is in no region: it means
  that the type does not occur.
* With stabs at `addr` and `addr + 1`, `stab_binsearch` answers with the later one unless
  its halving meets that one first: on a match it increments `addr`.
* The flag `-` of printf pads numbers on the left, with minus signs.

## Model

| member | source | states |
|---|---|---|
| `FreeList.Unlink` | sched/kern/pmap.c:346-360 | Taking the head off an acyclic, repetition-free list leaves such a list of the other elements |
| `FreeList.Link` | sched/kern/pmap.c:366-377 | Putting an unlisted element in front keeps the list acyclic and free of repetitions |
| `PageTables.AddressParts` | sched/inc/mmu.h:29-62 | PDX and PTX take apart what PGADDR puts together, for every directory index, table index and offset |
| `PageTables.MakeEntry` | sched/kern/pmap.c:489-505 | Whatever bits perm has, the entry is present and nonzero and keeps the low permission bits; the bits above them are or-ed into the frame number |
| `PageTables.EntryNames` | sched/kern/pmap.c:501-502 | The entry names the frame it is made for if and only if perm & ~(pa \| 0xFFF) == 0, and always for twelve-bit permissions |
| `PageTables.ForgedEntry` | sched/kern/pmap.c:501-502 | The page at 0x4000 with perm 0x8007 gives an entry for the page at 0xC000 |
| `PageTables.OrBits` | sched/kern/pmap.c:489-505 | a \| b has exactly the bits of both |
| `PageTables.CoversBits` | sched/kern/pmap.c:501-502 | b & ~a == 0 bit by bit: every bit of b is one of a |
| `PageTables.WritePte` | sched/kern/pmap.c:489-505 | Writing one word of a page table changes one key of the flat map and no other mapping of any address space |
| `PageTables.WritePde` | sched/kern/pmap.c:412-429 | Installing or clearing an empty page table changes no translation at all |
| `PageTables.DecrefChain` | sched/kern/pmap.c:383-388 | page_decref with n stored references frees the page exactly at the last one, on sixteen bits |
| `PageTables.Release` | sched/kern/pmap.c:383-388 | Dropping one reference with its count keeps all counts exact and the free list unreferenced |
| `PageTables.InstallTable` | sched/kern/pmap.c:412-429 | The new page table of pgdir_walk is counted once and maps nothing |
| `PageTables.IncrefStep` | sched/kern/pmap.c:489-505 | The early increment of page_insert makes exactly the inserted page count one more than is stored |
| `PageTables.InsertStep` | sched/kern/pmap.c:489-505 | If perm keeps the frame, the store makes every count exact modulo 2^16, and within sixteen bits exactly if the page had fewer than 2^16 - 1 references; otherwise one page is counted once too often and another once too rarely |
| `PageTables.MiscountedBreaks` | sched/kern/pmap.c:498-502 | In the latter case the counting invariant is lost |
| `PageTables.MiscountedLater` | sched/kern/pmap.c:383-388 | Later page_decref frees the other page while one reference to it is left, and the first page keeps count 1 without references |
| `PageTables.PagesInMemory` | sched/kern/pmap.h:77-83 | As long as the invariant holds, pa2page of a mapped entry does not panic |
| `PageTables.RemoveStep` | sched/kern/pmap.c:549-568 | Clearing an entry and dropping its page keeps exact counts, whether or not the page is freed |
| `PageTables.AddDirStep` | sched/kern/env.c:161-195 | A fresh page directory is referenced once, maps nothing below UTOP and disturbs nobody |
| `PageTables.ClearPdeStep` | sched/kern/env.c:428-449 | Clearing the directory entry of an emptied page table and dropping the table keeps the invariant |
| `PageTables.DropDirStep` | sched/kern/env.c:451-454 | Dropping an emptied directory frees exactly its page |
| `Pmap.PhysicalMemory.PageInit` | sched/kern/pmap.c:291-332 | The free list holds exactly the pages that are not reserved and the counting invariant starts to hold |
| `Pmap.PhysicalMemory.PageAlloc` | sched/kern/pmap.c:346-360 | NULL exactly when the free list is empty; otherwise its head, unlinked, unreferenced, cleared on request, every mapping unchanged |
| `Pmap.PhysicalMemory.PageFree` | sched/kern/pmap.c:366-377 | The page becomes the head of the free list; the two panics are its preconditions, met by every caller |
| `Pmap.PhysicalMemory.PageDecref` | sched/kern/pmap.c:383-388 | One less on sixteen bits, and freed at zero |
| `Pmap.PhysicalMemory.PgdirWalk` | sched/kern/pmap.c:412-429 | NULL exactly without a table and without the wish or the page to make one; a new table costs the head of the free list and changes no translation |
| `Pmap.PhysicalMemory.PageInsert` | sched/kern/pmap.c:489-505 | For any perm: one key of the flat map changes; -E_NO_MEM changes nothing; the replaced page is freed exactly at its last reference and never when it is re-inserted; counts stay exact if and only if perm keeps the frame and the count was not full or the page was mapped there already |
| `Pmap.PhysicalMemory.PageLookup` | sched/kern/pmap.c:518-532 | The page that the flat map holds at va and where its entry is, or NULL exactly when the entry is zero; nothing is said about pte_store then, as nothing is stored |
| `Pmap.PhysicalMemory.PageRemove` | sched/kern/pmap.c:549-568 | One key is deleted, no other entry changes, and the page is freed exactly at its last reference |
| `Pmap.InsertOutcome` | sched/kern/pmap.c:489-505 | What page_insert frees and when its count overflows, from the memory before the call |
| `Pmap.InsertFinish` | sched/kern/pmap.c:489-505 | From walk, increment and removal to the finished insertion: the map changes at one key and contents of non-table frames stay; what becomes of the counts and of kern_pgdir, whether or not perm keeps the frame |
| `Pmap.PhysicalMemory.EnvSetupVm` | sched/kern/env.c:161-195 | A copy of kern_pgdir with the UVPT self-map, mapping nothing below UTOP; -E_NO_MEM exactly when no page is free |
| `Pmap.PhysicalMemory.UnmapTable` | sched/kern/env.c:436-440 | The inner loop of env_free clears exactly the entries of one page table and frees exactly the pages whose references have all gone |
| `Pmap.PhysicalMemory.FreeTable` | sched/kern/env.c:428-449 | One round of the outer loop also gives back the page table |
| `Pmap.PhysicalMemory.EnvFree` | sched/kern/env.c:426-454 | After env_free a page is free exactly if it was free or all its references came from this address space; every other translation is unchanged |
| `Pmap.TornRefs` | sched/kern/env.c:428-449 | A reference dropped in the nested loops was one of this directory, so the freed set stays exact |
| `Pmap.TornAll` | sched/kern/env.c:428-454 | When all slots of a directory are gone, a page has no reference left exactly if all its references were in it |
| `Pmap.PhysicalMemory.EnvPageAlloc` | sched/kern/syscall.c:46-58 | On success one key names a new zeroed page; each error exactly when it is due; the failure after page_alloc leaves one page referenced by nobody and off the free list |
| `Pmap.PhysicalMemory.EnvPageMap` | sched/kern/syscall.c:61-73 | For any perm: -E_INVAL exactly for unmapped or read-only-to-writable, and then nothing changes; both addresses name the page of the source if and only if perm keeps its frame; counts stay exact if and only if, besides, the count of the page was not full or it was mapped there already |
| `Syscalls.Kernel.SysPageMap` | sched/kern/syscall.c:265-295 | With the address checks and both lookups: each error exactly when due and without effect; no error for an inappropriate perm, and exactly what the mapping and the counts are then |
| `Pmap.PhysicalMemory.UserMemCheck` | sched/kern/pmap.c:643-664 | -E_FAULT or 0; on a range whose end can be rounded up, 0 exactly when every byte is below 0xEEC00000 and its entry is present with every bit of perm; for any range the exact answer, and the least offending address as the page loop records it |
| `Pmap.HasBitsMeans` | sched/kern/pmap.c:657 | (pte & (perm \| PTE_P)) == (perm \| PTE_P) bit by bit: the entry is odd and has every bit of perm, whatever int perm is |
| `Pmap.HasUserWrite` | sched/kern/pmap.c:657 | For PTE_U \| PTE_W: present, writable and of the user, all three |
| `Pmap.AccessibleMeans` | sched/kern/pmap.c:643-664 | A byte is accessible exactly if it lies below 0xEEC00000 and word va >> 12 of the flat map has those bits |
| `Pmap.ReadOnlyRefused` | sched/kern/pmap.c:643-664 | A range that touches a page without PTE_W is refused to a caller that asks for PTE_W |
| `Pmap.PermOkMeans` | sched/kern/syscall.c:17-34 | check_perm accepts exactly the twelve-bit permissions with PTE_U and PTE_P and none of the bits 3 to 8 |
| `Pmap.UserMemCheckMeaning` | sched/kern/pmap.c:643-664 | Per byte, for every va and len: acceptance is accessibility of every byte as long as rounding up does not pass 2^32; ranges ending in the last page below 2^32 are all accepted; exactly which ranges reaching 2^32 are |
| `Pmap.UserMemCheckExact` | sched/kern/pmap.c:643-664 | The answer is the right one if and only if rounding up does not pass 2^32 or the wrapped end, or the one page looked at, leads to a rejection |
| `Pmap.KernelRangeAccepted` | sched/kern/pmap.c:643-664 | A range from 0xF0000000 that wraps around to 0x1000 is accepted in every memory |
| `EnvTable.NextIdOk` | sched/kern/env.c:216-220 | Each new id is positive, below 2^31, names its slot, and is of the next generation, wrapping to the first |
| `EnvTable.IdCycle` | sched/kern/env.c:216-220 | An id returns to its slot exactly after every 2^19 - 1 allocations of it |
| `EnvTable.LiveIds` | sched/inc/env.h:10-30 | Live ids are positive, ENVX gives the slot, and two live environments have the same id only if they are the same |
| `EnvTable.LookupMeaning` | sched/kern/env.c:72-106 | Id 0 is the current environment; another id is accepted exactly when a live environment has it, and with checkperm exactly when that one is current or a child |
| `EnvTable.AllocCreates` | sched/kern/env.c:205-256 | Field by field: the slot at the head of the list gets the id of the next generation, the parent id, ENV_RUNNABLE and the directory, and no other slot changes |
| `EnvTable.ChildIsFound` | sched/kern/env.c:72-106 | After an environment created a child, its own lookup of the new id with checkperm finds the child |
| `EnvTable.RunKeeps` | sched/kern/env.c:114-128 | In every reachable table the free list holds exactly the ENV_FREE slots and every id names its slot |
| `EnvTable.IdInRun` | sched/kern/env.c:205-272 | Over any run the id of a slot is decided by how often the slot was allocated |
| `EnvTable.StaleIds` | sched/kern/env.c:72-106 | Over any run an earlier id of a slot is accepted exactly when the slot is live and was allocated a multiple of 2^19 - 1 times since |
| `EnvTable.FreedIdRejected` | sched/kern/env.c:81-92 | The id of a freed environment is rejected until its slot was allocated 2^19 - 1 times |
| `EnvManager.Envs.EnvInit` | sched/kern/env.c:114-128 | All slots free, in order, so that the first allocation returns slot 0 |
| `EnvManager.Envs.Envid2Env` | sched/kern/env.c:72-106 | Stores the environment that the lookup finds, or NULL with -E_BAD_ENV |
| `EnvManager.Envs.EnvAlloc` | sched/kern/env.c:205-256 | -E_NO_FREE_ENV exactly when all slots are live, -E_NO_MEM exactly when no page is free, both without effect; otherwise the head of the free list with the next id, the parent id, ENV_RUNNABLE and an empty address space, all other slots as before, and a creator finds its child by the new id |
| `Syscalls.Kernel.EnvAlloc` | sched/kern/env.c:205-272 | The whole of it, while the rings have room: the slot field by field, its mailbox closed, its counter 0 and its new entry at the end of the queue the parent is in; a slot that no entry named keeps the books of the scheduler; each error exactly when due and without effect |
| `Syscalls.ParentQueueMeans` | sched/kern/env.c:264-268 | That queue is the one of the live environment with the parent id, of the current one for id 0, and queue 0 if nobody has the id |
| `Syscalls.Kernel.EnvDestroy` | sched/kern/env.c:466-486 | Running elsewhere: marked dying and nothing else; otherwise the slot is freed to the head of the list and curenv cleared if it was the one; the scheduler sees the same status; exactly the pages that only this environment referenced become free |
| `Syscalls.StartedBooks` | sched/kern/env.c:264-268 | The entry of a new environment, with its status and counter reset, keeps one entry per slot and adds exactly its id |
| `EnvManager.Envs.EnvFree` | sched/kern/env.c:412-459 | Status, link and directory of the slot change and no other field or slot; exactly the pages that only this environment referenced become free; others translate as before |
| `EnvManager.Envs.EnvDestroy` | sched/kern/env.c:466-486 | An environment running elsewhere is only marked dying; any other is freed, with exactly the pages that only it referenced, every other translation as before; the scheduler is called exactly if it was the current one |
| `MlfqSpec.YieldConserves` | sched/kern/sched.c:208-261 | No scheduler call loses, duplicates or invents a queue entry, boosting included |
| `MlfqSpec.YieldBooked` | sched/kern/sched.c:208-261 | One entry per slot, current_queue names the ring of every entry, and the execution counter stays within 0..50 after every call |
| `MlfqSpec.DispatchRule` | sched/kern/sched.c:171-206 | The first runnable entry of the lowest queue that has one is dispatched and goes to the end of the next lower queue |
| `MlfqSpec.DispatchDoes` | sched/kern/sched.c:171-206 | priority_MLFQ field by field: the first entry that may run moves to the end of the next lower queue, its environment is running and counted, the one that ran is runnable again, every other status, counter and queue is as before; without such an entry the running one goes on, or the CPU halts and nothing changes |
| `MlfqSpec.BoostDoes` | sched/kern/sched.c:107-114 | All entries go to queue 0 in queue order; current_queue becomes 0 for the slots that a lower queue names and stays for all others |
| `MlfqSpec.YieldDoes` | sched/kern/sched.c:208-261 | sched_yield so described: at 50 executions the boost first, then the dispatch |
| `MlfqSpec.SwapRemoveOrder` | sched/kern/sched.c:54-70 | Removal by swapping with the head moves every other entry behind the head up by one |
| `MlfqSpec.SetPriorityMoves` | sched/kern/syscall.c:443-468 | A successful call moves one entry to the end of the queue asked for; a failing one changes nothing |
| `MlfqSpec.SetPriorityDoes` | sched/kern/syscall.c:443-468 | By cases: refused and unchanged for a bad number, an unknown or foreign environment or a raise; unchanged for the same queue; otherwise the entry goes from its ring to the end of the one asked for |
| `MlfqSpec.DestroyDoes` | sched/kern/sched.c:72-85 | Only the ring that current_queue names changes, by the first entry of the id |
| `MlfqSpec.AllocPushes` | sched/kern/env.c:264-268 | env_alloc adds exactly one entry for a slot that is queued nowhere |
| `MlfqSpec.BoundedWaiting` | sched/kern/sched.c:208-261 | In any run of scheduler calls, new entries and sys_env_set_priority calls by anybody, an environment that stays runnable is dispatched within MAX_MLFQ_EXECUTIONS + n scheduler calls, n bounding the queued entries, times one more than its setbacks before |
| `MlfqSpec.PriorityAt` | sched/kern/syscall.c:443-468 | No sys_env_set_priority takes a queued environment out of the queues, and none but a setback moves it away from its dispatch: its own move out of queue 0, or one that has the head of queue 0 fill a place further back |
| `MlfqSpec.HeadIsSetBack` | sched/kern/sched.c:54-70 | That does happen: when the entry at place k > 1 leaves queue 0, the head gets place k - 1 and all between go before it |
| `MlfqSpec.WaitRunsOut` | sched/kern/sched.c:171-206 | The induction behind it: every scheduler call before the dispatch uses up the executions left before the boost or moves the entry up by one place, and only a setback costs more |
| `Mlfq.Ring.Append` | sched/kern/sched.c:43-52 | With counters taken modulo NENV, the ring grows by one entry at its end; a full ring loses its first entry and holds the new one twice |
| `MlfqSpec.EntriesStay` | sched/kern/sched.c:208-261 | Over any run of scheduler calls, status changes, new entries and priority calls no entry ever leaves the queues, so that the rings do fill up |
| `Mlfq.Ring.RemoveEnv` | sched/kern/sched.c:54-70 | In-place swap and head increment on the ring are swap-removal on its logical content |
| `Mlfq.Scheduler.SchedPushEnv` | sched/kern/sched.c:43-52 | The entry is appended to the named ring and current_queue records it |
| `Mlfq.Scheduler.BoostQueue` | sched/kern/sched.c:98-105 | All entries of a ring are appended to queue 0 in order |
| `Mlfq.Scheduler.CleanQueues` | sched/kern/sched.c:87-96 | The three lower rings are emptied |
| `Mlfq.Scheduler.BoostEnvs` | sched/kern/sched.c:107-114 | Boosting puts all entries in queue 0, in queue order, and resets the counter |
| `Mlfq.Scheduler.HasRunnableEnvs` | sched/kern/sched.c:140-153 | True exactly if some entry of the ring is runnable |
| `Mlfq.Scheduler.GetBestPriorityQueue` | sched/kern/sched.c:157-169 | The lowest-numbered ring with a runnable entry |
| `Mlfq.Scheduler.PriorityMlfq` | sched/kern/sched.c:171-206 | The in-place dispatch: who runs, where its entry goes, that the preempted environment is ENV_RUNNABLE, and that nothing else changes |
| `Mlfq.Scheduler.SchedYield` | sched/kern/sched.c:208-261 | The whole call, boost included: the environment returned is running, the one it preempts runnable, every other status unchanged; and it refines the policy that the theorems are about |
| `Mlfq.Scheduler.SchedDestroyEnv` | sched/kern/sched.c:72-85 | The first entry of an id is taken out of the ring that current_queue names, and only there |
| `Mlfq.Scheduler.SysEnvSetPriority` | sched/kern/syscall.c:443-468 | The system call after its lookups, case by case on rings and fields |
| `Syscalls.Kernel.SysEnvSetPriority` | sched/kern/syscall.c:443-468 | With envid2env and the ownership test made on the environment table, while the ring asked for has room |
| `Syscalls.OwnsMeans` | sched/kern/syscall.c:443-468 | Found and owned is what envid2env with checkperm would find |
| `CowFork.GuardMeetsIntent` | sched/lib/fork.c:28-30 | The guard of pgfault never panics; it meets its comment exactly for write faults on copy-on-write pages |
| `CowFork.PgfaultEffect` | sched/lib/fork.c:32-47 | Allocate at PFTEMP, copy, remap, unmap leave one change: a private writable copy at the faulting page |
| `CowFork.DupRefines` | sched/lib/fork.c:61-96 | One duppage keeps every multiply mapped page unwritable and gives the child what an eager copy would |
| `CowFork.DuppageMarks` | sched/lib/fork.c:61-96 | A writable or copy-on-write page ends up copy-on-write and not writable on both sides; any other is shared read-only and stays as it is in the parent; frame and cache bits stay |
| `CowFork.ForkMarks` | sched/lib/fork.c:206-251 | After the page loop that holds of every page of the parent below UTOP but the exception stack, and no other entry changed |
| `CowFork.StepRefines` | sched/lib/fork.c:14-96 | Every step keeps the refinement between shared memory and private copies |
| `CowFork.CowRefinesEagerCopy` | sched/lib/fork.c:206-251 | Over any run of duppages, faults and writes each environment reads what it would with eager copies, and no doubly mapped page is writable |
| `CowFork.WritesStayPrivate` | sched/lib/fork.c:14-48 | A write by one environment changes no page of another |
| `CowFork.HalfwayWriteLeaks` | sched/lib/fork.c:75-85 | Between the two page mappings of one duppage a write by the parent would show in the child |
| `CowFork.DumbforkIsEager` | sched/user/dumbfork.c:25-38 | dumbfork's own duppage is the eager copy that the refinement is measured against |
| `CowFork.UserMemory.SysPageMap` | sched/kern/syscall.c:265-300 | Fails exactly when the source is unmapped or would gain write permission; otherwise one mapping changes |
| `CowFork.UserMemory.DupOnePage` | sched/lib/fork.c:61-96 | The system calls of one duppage in order, and the two entries they leave, PTE_COW included |
| `CowFork.UserMemory.Fork` | sched/lib/fork.c:206-251 | The page loop shares exactly the pages below UTOP but the exception stack, which gets a new page |
| `CowFork.ForkCopies` | sched/lib/fork.c:206-251 | The child reads the parent's pages, a zeroed exception stack, and nothing else; the parent's and everyone else's memory is unchanged |
| `CowPages.PictureShows` | sched/lib/fork.c:61-69 | Every memory in which all user entries have PTE_U has a picture as the flat map that the refinement is about |
| `CowPages.EntryBits` | sched/inc/mmu.h:57-76 | The entry that page_insert stores shows the frame, PTE_W, PTE_COW and the cache bits that were asked for |
| `CowPages.MarkedBits` | sched/lib/fork.c:61-96 | Those words name the frame, have PTE_U, keep the cache bits, are not writable, and have PTE_COW exactly if the page was writable or copy-on-write |
| `CowPages.MapShows` | sched/kern/syscall.c:61-73 | A word stored by page_insert changes the picture as sys_page_map changes the flat map |
| `CowPages.AllocShows` | sched/kern/syscall.c:46-58 | A page taken off the real free list is one that no picture maps, and the picture gains it zeroed |
| `CowPages.RemoveShows` | sched/kern/pmap.c:549-568 | A cleared word is an unmapped page |
| `CowPages.WriteMapped` | sched/lib/fork.c:38-41 | A store to a mapped page keeps the counting invariant and every translation, and shows at all addresses that map it |
| `CowPages.OnlyMapping` | sched/lib/fork.c:32-47 | A page with one mapping has reference count 1 |
| `CowPages.SysPageMap` | sched/kern/syscall.c:265-295 | On page-table words: -E_INVAL exactly where the flat map refuses, -E_NO_MEM exactly without a table and a free page, otherwise the step of the flat map |
| `CowPages.SysPageAlloc` | sched/kern/syscall.c:224-250 | On page-table words: -E_NO_MEM exactly when the pages needed are not free, otherwise the step of the flat map with the head of the free list |
| `CowPages.Duppage` | sched/lib/fork.c:61-96 | On page-table words: where the page was writable or copy-on-write both entries become frame \| 0x805 with the cache bits; otherwise the child gets frame \| 0x005 and the parent keeps its word; no other entry changes, and where it panics nothing does |
| `CowPages.Pgfault` | sched/lib/fork.c:32-47 | The system calls and the memmove of pgfault: the faulting entry becomes a new frame \| 0x007 with the old contents, no other entry changes; it fails exactly when the pages needed are not free |
| `CowPages.Serve` | sched/lib/fork.c:14-96 | One duppage, exception stack, user write or write fault keeps the refinement of memory itself, and is served exactly when memory and counts allow it |
| `CowPages.Run` | sched/lib/fork.c:14-251 | Any interleaving of such requests by any environments, on page-table words, sixteen-bit counts and the real free list, reads as with eager copies until one cannot be served |
| `CowPages.ReadsMeans` | sched/lib/fork.c:14-251 | What that says without the flat map: exactly the expected pages are mapped, memory holds their expected contents, and no frame named by two entries is writable |
| `Smp.StepKeeps` | sched/kern/trap.c:244-301 | Every kernel step that does not touch the status of an environment running elsewhere keeps exclusivity |
| `Smp.DisciplineIsExact` | sched/kern/syscall.c:166-186 | The steps that break exclusivity are exactly the unchecked status changes of environments running elsewhere |
| `Smp.DoubleDispatch` | sched/kern/syscall.c:166-186 | After such a set_status, or a send to an environment that runs, one timer tick suffices for two CPUs to run the same environment |
| `Smp.Contested` | sched/kern/syscall.c:417-430 | From every boot state with two CPUs and two runnable environments a disciplined run leads to where one CPU is in a system call while the other runs the second environment with an open mailbox |
| `Smp.UncheckedStepsReachable` | sched/kern/syscall.c:360-404 | There the unchecked set_status and the unchecked send are enabled and undisciplined |
| `Smp.DestroyTwice` | sched/kern/env.c:466-486 | One disciplined destroy later a second one is enabled, and frees the environment that the other CPU runs in user mode |
| `Smp.Exclusive` | sched/kern/spinlock.c:60-124 | In every interleaving at most one CPU is in the kernel, no environment is current on two CPUs, and in user mode a CPU has a running or dying one |
| `Smp.OnlyTheHolderWrites` | sched/kern/spinlock.c:60-124 | Statuses, current environments and IPC flags change only under the lock; env_cpunum only for an environment that nobody else has |
| `Smp.NoLockPanics` | sched/kern/spinlock.c:60-124 | The double-acquire, release and curenv assertions never fire |
| `Smp.LockEffect` | sched/kern/spinlock.c:60-124 | A step changes the lock only together with the standing of the acting CPU |
| `Smp.StatusEffect` | sched/kern/env.c:466-520 | Which steps make an environment running, runnable, not runnable, dying or free, under which guards, and that no other step changes a status |
| `Smp.FlagEffect` | sched/kern/syscall.c:360-430 | The IPC flag and env_cpunum after every step |
| `Smp.ModeEffect` | sched/kern/trap.c:244-301 | Where a CPU goes on after every step, and with which current environment |
| `Smp.ChildWaits` | sched/kern/syscall.c:143-160 | A child made by sys_exofork runs on no CPU before a set_status or a message makes it runnable, in every interleaving |
| `Smp.NobodyIsStuck` | sched/kern/trap.c:244-301 | In every such state each CPU has a step, and a CPU in a system call may act on every environment it names |
| `Ipc.OneRecvPerDelivery` | sched/kern/syscall.c:360-430 | Between two deliveries to an environment it called sys_ipc_recv again |
| `Ipc.WantedAtLastRecv` | sched/kern/syscall.c:417-430 | The address at which a delivery maps its page is the one of the last good sys_ipc_recv of the receiver, over every run |
| `Ipc.DeliveryNeedsRecv` | sched/kern/syscall.c:360-430 | Every delivery is preceded by a sys_ipc_recv that no other delivery used |
| `Ipc.DeliveryStays` | sched/kern/syscall.c:360-430 | A delivered value, sender and permission stay until the next sys_ipc_recv, and nothing more is delivered |
| `Ipc.PassPage` | sched/kern/syscall.c:384-396 | For a mapped page: both environments name the same frame afterwards, one key of the flat map changed; -E_INVAL and -E_NO_MEM exactly when due and with every mapping as before; counts stay exact if and only if the count of the page was not full or the receiver mapped it there already |
| `Ipc.SourceWritable` | sched/kern/syscall.c:380-383 | The write bit that the sender has for the page, nothing changed |
| `Ipc.UserPresentBits` | sched/kern/syscall.c:387-391 | perm \| PTE_U \| PTE_P bit by bit |
| `Ipc.CountAfterAlloc` | sched/kern/syscall.c:387-391 | The page allocated first at the receiver adds no reference to any other mapped page and takes one from the page it replaces |
| `Ipc.AfterAlloc` | sched/kern/syscall.c:387-396 | So the sender still maps the page, as writable as before, and its count is full exactly if it was |
| `Syscalls.Kernel.SysIpcRecv` | sched/kern/syscall.c:417-430 | Opens the mailbox, even for an address it then refuses; for a page-aligned address below UTOP it records the address and blocks; value, sender and permission and all other mailboxes stay |
| `Syscalls.Kernel.SendPage` | sched/kern/syscall.c:376-396 | The result is decided by alignment, write permission, permission bits and free pages, in this order; the page is passed exactly on success to a receiver that wants one |
| `Syscalls.PageResultMeans` | sched/kern/syscall.c:376-396 | Each of its errors by the bits of perm and of the word that maps the page |
| `Syscalls.Kernel.SysIpcTrySend` | sched/kern/syscall.c:360-404 | Each error exactly when it is due, without delivery and with every mapping as before; success closes the mailbox, stores value, sender and permission, makes the receiver runnable for the table and for the scheduler, and has passed the page if one was sent and wanted |
| `Syscalls.Kernel.Deliver` | sched/kern/syscall.c:398-404 | The stores of a delivery are the event that the theorems about whole runs speak of |
| `DirContent.LinesOfRender` | fisopfs/file.c:167-190 | Parsing a newline-terminated list of names gives the names back |
| `DirContent.AddDentryText` | fisopfs/file.c:192-216 | With or without growth, the text of the buffer grows by one line |
| `DirContent.AddDentrySize` | fisopfs/file.c:192-216 | The buffer grows exactly if the line does not fit, by the line and 1024; otherwise the bytes behind the new terminator stay |
| `DirContent.ReadLine` | fisopfs/file.c:167-183 | The characters up to the next newline or the end, and how far the offset moves |
| `DirContent.ReadEntries` | fisopfs/fisopfs.c:88-96 | The loop yields exactly the lines of the content |
| `DirContent.CopyEntries` | fisopfs/file.c:229-243 | The loop copies every entry but one to a cleared buffer |
| `DirContent.WithoutOne` | fisopfs/file.c:229-243 | In a listing without repetitions that leaves out the one entry and keeps the order of the others |
| `DirContent.AddAllText` | fisopfs/file.c:229-243 | Appending entries one by one renders them in order |
| `FsTree.JoinParts` | fisopfs/file.c:111-122 | get_parent_path and the text after the last slash take apart what joining puts together |
| `FsTree.AddChildOk` | fisopfs/file.c:249-276 | Adding an empty node below an existing directory keeps every listing exact |
| `FsTree.RemoveChildOk` | fisopfs/file.c:218-247 | Removing a file or a directory with no entries keeps every listing exact and leaves no orphan |
| `FsTable.FillView` | fisopfs/file.c:278-331 | Filling a free slot adds one path to the tree; refilling an active one changes one |
| `FsTable.CreateDoes` | fisopfs/file.c:278-331 | create_inode field by field: -ENAMETOOLONG above 256 characters, otherwise the first free slot, or the one behind the old table, 1024 slots longer, holds an empty inode of the kind, owner and mode given |
| `FsTable.MakeErrors` | fisopfs/fisopfs.c:161-203 | Each error of mkdir and create, for every table |
| `FsTable.MakeKeepsExactly` | fisopfs/fisopfs.c:161-203 | mkdir and create keep the file system consistent if and only if the path is valid, free and below an existing directory, or refused for its length |
| `FsTable.MakeAdds` | fisopfs/fisopfs.c:161-203 | They succeed exactly then: one node of the kind and metadata given with an empty content, one line more in its parent, nothing else changed |
| `FsTable.UnlinkKeeps` | fisopfs/fisopfs.c:138-159 | unlink removes exactly a file and its one line in the parent, with each error exactly when due, and keeps the file system consistent |
| `FsTable.RmdirKeeps` | fisopfs/fisopfs.c:261-289 | rmdir removes exactly a directory, and refuses exactly those that have a child |
| `FsTable.WriteKeeps` | fisopfs/fisopfs.c:291-331 | A write keeps what lies before the offset, fills a gap with zeros, ends the file with the data and stamps the modification time; nothing else changes |
| `FsTable.ReadDoes` | fisopfs/fisopfs.c:101-136 | The bytes from the offset on, as many as asked for or as there are; only the access time changes |
| `FsTable.ReadsBack` | fisopfs/fisopfs.c:101-331 | What was written at an offset is read there |
| `FsTable.InitConsistent` | fisopfs/fisopfs.c:229-232 | The fresh file system is consistent, and is one empty root directory |
| `FsDisk.InodeRoundTrip` | fisopfs/file.c:25-109 | Every field of an inode survives its 312-byte form, its size included |
| `FsDisk.InodeLayout` | fisopfs/file.h:14-27 | Where each field of the struct lies, how wide it is, and that it is little-endian |
| `FsDisk.SaveLayout` | fisopfs/file.c:73-109 | The file: the number of active inodes in four bytes, then the struct and content of each in the order of the slots, and nothing more |
| `FsDisk.LoadOfSave` | fisopfs/file.c:21-109 | deserialize after serialize yields the active inodes in order, metadata and contents unchanged |
| `FsDisk.RestartKeepsView` | fisopfs/file.c:21-109 | After a restart every lookup and every listing is as before |
| `FsDisk.AlwaysConsistent` | fisopfs/fisopfs.c:138-289 | In every reachable state, restarts included, paths are distinct, parents are directories, and each directory lists its children exactly once |
| `Fisopfs.FileSystem.Init` | fisopfs/fisopfs.c:222-240 | The root directory in a new table |
| `Fisopfs.FileSystem.SearchInode` | fisopfs/file.c:139-155 | The first active inode with the path, or ERROR exactly if there is none |
| `Fisopfs.FileSystem.CreateInode` | fisopfs/file.c:278-331 | The first free slot, growing the table if there is none, with every field of the new inode |
| `Fisopfs.FileSystem.AddDentryToParentDir` | fisopfs/file.c:249-276 | One entry is appended to the parent, or -ENOENT, -ENOTDIR without effect |
| `Fisopfs.FileSystem.Make` | fisopfs/fisopfs.c:161-203 | The code of both operations: the errors, the node and the line added, and the exact condition for consistency |
| `Fisopfs.FileSystem.RemoveInode` | fisopfs/file.c:218-247 | The slot is freed and the parent's content rewritten without the entry |
| `Fisopfs.FileSystem.Unlink` | fisopfs/fisopfs.c:138-159 | The errors, the node and the line removed, and consistency |
| `Fisopfs.FileSystem.Rmdir` | fisopfs/fisopfs.c:261-289 | The errors, the node and the line removed, and consistency |
| `Fisopfs.FileSystem.Readdir` | fisopfs/fisopfs.c:60-99 | Dot, dot-dot and the names of the children, each once; each error exactly when due |
| `Fisopfs.FileSystem.Write` | fisopfs/fisopfs.c:291-331 | The file after the write byte by byte, the errors, and consistency |
| `Fisopfs.FileSystem.ReadFile` | fisopfs/fisopfs.c:101-136 | The bytes read, the errors, and the access time |
| `Fisopfs.FileSystem.Serialize` | fisopfs/file.c:73-109 | Writes the number of active inodes and then each with its content |
| `Fisopfs.FileSystem.Deserialize` | fisopfs/file.c:21-71 | Reads back any file, short ones included, and is left with an empty table exactly if one of its reads fails |
| `Fisopfs.FileSystem.ReadInodes` | fisopfs/file.c:33-58 | The loop fails exactly if the file needs more reads than work; otherwise the slots hold the inodes of the file in order and the rest are empty |
| `FsDisk.FailedLoadLosesAll` | fisopfs/file.c:60-70 | After a failed read no path exists, not even the root, and a file saved from that state loads as the empty table |
| `FsDisk.CallsOfSave` | fisopfs/file.c:21-58 | Loading a saved file takes one read for the count and two for each active inode |
| `FsDisk.LoadOfCutSave` | fisopfs/file.c:21-71 | A dump that ends within the content of an inode: all before it, that one at its full size with zeros for what is missing, and empty slots for the rest; and how many reads that takes |
| `FsDisk.CutPath` | fisopfs/file.c:33-58 | A dump that ends within a path gives an empty file of that truncated path, which nobody made |
| `Pipeline.OpenToExact` | shell/exec.c:101-151 | open, dup2, close redirect a descriptor exactly when the new file does not get its number |
| `Pipeline.RedirectMeaning` | shell/exec.c:101-151 | With 0, 1, 2 open the redirections yield exactly the table asked for; 2>&1 follows a redirected stdout |
| `Pipeline.PipeExact` | shell/exec.c:165-209 | Each child keeps exactly one end of the pipe on its descriptor if and only if stdin is open; the parent gets its table back |
| `Pipeline.RunWires` | shell/exec.c:165-263 | Every command of any tree is run with exactly its expected table: the pipe before it, the pipe after it, the rest inherited |
| `Pipeline.RunServes` | shell/exec.c:101-263 | Descriptor by descriptor and fate by fate: what every command of a pipeline gets, failed redirections included, which stop at the first file that cannot be opened |
| `Pipeline.NoLeaks` | shell/exec.c:165-263 | Every process has the same open descriptor numbers as the shell |
| `Pipeline.Neighbours` | shell/exec.c:165-209 | A command's stdout and its successor's stdin are the two ends of one pipe unless redirected |
| `Pipeline.OnlyTheWriterHolds` | shell/exec.c:165-209 | The write end of a pipe is held by the command on its left exactly if not redirected, and by no other command |
| `Pipeline.WaitersHoldNoWriteEnd` | shell/exec.c:205-208 | The waiting processes hold no write end exactly for trees with no pipe on the left of another |
| `Pipeline.PipeWaits` | shell/exec.c:205-209 | As many processes wait as there are pipes, and the one that builds the first pipe waits with the table it started with |
| `ShellExec.Process.RedirectStdin` | shell/exec.c:101-113 | The stepwise redirection, and when it exits |
| `ShellExec.Process.RedirectStdout` | shell/exec.c:115-129 | The stepwise redirection, and when it exits |
| `ShellExec.Process.RedirectStderr` | shell/exec.c:131-151 | The stepwise redirection, with the &1 case |
| `ShellExec.Shell.RunPipe` | shell/exec.c:165-209 | The closes and dup2s of both children and the parent amount to the specified run |
| `ShellExec.Shell.ExecCmd` | shell/exec.c:218-263 | The recursive executor serves every command so, and ends with the specified processes and tables |
| `Parsing.BlockContains` | shell/utils.c:25-33 | The index of the first occurrence, or -1 |
| `Parsing.SplitLine` | shell/utils.c:6-20 | What is left of the separator, and what is right of it without leading blanks |
| `Parsing.GetToken` | shell/parsing.c:4-20 | The characters up to the next blank or the end |
| `Parsing.ParseExecLoop` | shell/parsing.c:130-163 | The token loop computes the specified command |
| `Parsing.ParseCmdLoop` | shell/parsing.c:184-199 | NULL, background or foreground command as specified |
| `Parsing.ParseLineLoop` | shell/parsing.c:203-218 | The recursive splitter computes the specified tree |
| `Parsing.OnlyWordsMatter` | shell/parsing.c:130-163 | A command is decided by its words: extra blanks anywhere change nothing |
| `Parsing.ParseLineOfJoin` | shell/parsing.c:203-218 | Stages joined by pipe characters parse as the right-nested tree of their commands, in order |
| `Parsing.ParseLineRightNested` | shell/parsing.c:203-218 | Every line parses to a tree with no pipe on the left of another |
| `Parsing.BackgroundCmd` | shell/parsing.c:166-199 | What stands before an & that no > precedes runs in the background; what stands behind it is dropped |
| `Parsing.FirstPiece` | shell/createcmd.c:34-50 | No command right of a bar leaves the left one alone; none left of it breaks the pipe |
| `Rendering.TokenOfItem` | shell/parsing.c:22-124 | Every argument, $NAME, $?, NAME=value, <f, >f, 2>f and 2>&1 is taken for what it is: a variable gives its value, or nothing if it is unset or empty; so are the words with a > or < further back |
| `Rendering.EveryWordIsAnItem` | shell/parsing.c:22-124 | Every word without & is one of these |
| `Rendering.AddItemsMeaning` | shell/parsing.c:130-163 | Arguments and variables keep their order and the last redirection of each kind wins |
| `Rendering.LineRoundTrip` | shell/parsing.c:130-218 | Any nonempty list of commands made of such items, written with any blanks, is parsed as exactly what the items mean |
| `Rendering.LineCommands` | shell/createcmd.c:34-50 | Stage i of the line is command i of the pipeline |
| `Rendering.DashInValue` | shell/parsing.c:66-86 | NAME=value becomes an argument exactly if a dash occurs anywhere in it, the value included |
| `Kdebug.LoopKeeps` | sched/kern/kdebug.c:68-94 | The loop ends, and in a state with nothing left to search |
| `Kdebug.SearchMeaning` | sched/kern/kdebug.c:59-106 | For every sorted region: right ends just before the first wanted stab at or after an address reached from addr through occurring addresses, left is the last wanted stab before it |
| `Kdebug.FindsTheStab` | sched/kern/kdebug.c:59-106 | For every sorted region: the answer is the last stab of the type at or before addr, ending before the next one, if and only if addr and addr + 1 do not both have one or the halving meets the later of the two first |
| `Kdebug.SearchRightEnd` | sched/kern/kdebug.c:59-106 | With stabs at addr and addr + 1, the right end comes to lie before the later one exactly if the halving meets that one first |
| `Kdebug.NextAddressConfuses` | sched/kern/kdebug.c:87-93 | With stabs at addr and addr + 1 the later one is returned, for every addr |
| `Kdebug.EmptyResult` | sched/kern/kdebug.c:39-43 | The region comes back empty exactly if the type does not occur, not when all its stabs lie after addr |
| `Kdebug.StabBinsearch` | sched/kern/kdebug.c:59-106 | The loops with their in-place bounds compute that search |
| `Numbers.Printnum` | sched/lib/printfmt.c:36-55 | Padding up to the width and then all digits: max(width, digits) characters |
| `Numbers.StrtolLoop` | sched/lib/string.c:246-291 | The loops compute the specified value and end position |
| `Numbers.StrtolReads` | sched/lib/string.c:246-291 | Blanks and tabs, a sign, the prefix of the base, a numeral in digits of either case: its value on 32 bits, and where it ends; base 0 is 16 after 0x, 8 after 0, and 10 otherwise |
| `Numbers.ScanReads` | sched/lib/string.c:270-286 | The digits of n are read as n, on 32 bits |
| `Numbers.RoundTrip` | sched/lib/printfmt.c:36-55 | In bases 2 to 16, padded with blanks or zeros, a number is read back wholly, and as itself exactly below 2^31 |
| `Numbers.SignedRoundTrip` | sched/lib/printfmt.c:197-205 | %d of a negative number reads back exactly if unpadded or zero-padded; padded with blanks it reads as 0 |
| `Numbers.PointerRoundTrip` | sched/lib/printfmt.c:219-225 | %p reads back in base 0 and 16 under the same condition |
| `Numbers.MinusFlag` | sched/lib/printfmt.c:111-114 | The flag - pads on the left with minus signs: one negates the number, more make it 0 |

## Left out

- TLB invalidation, boot-time mappings, the kernel half of the address space, trapframes, ELF loading, devices and assembly: no effect on the state modelled here.
- sys_page_alloc and sys_page_unmap: they check ids, addresses and alignment as sys_page_map does and then make the modelled calls.
- Pmap.PhysicalMemory.PageFree: the two panics are preconditions, because every caller in the model is proved to meet them.
- Pmap.PhysicalMemory.PageInsert: requires an address below UTOP and a frame that is not free and not in use as a page table or directory, which its callers pass as long as the invariant holds; what page_remove and env_free do in a memory whose invariant a forged entry has broken is not followed further than MiscountedLater.
- Syscalls.Kernel.SysIpcTrySend: requires a page mapped at the address to send where the kernel looks it up, because the source then reads a pointer that was never set.
- Ipc.PassPage: requires such a page as well, and write permission where it is passed on writable, which its caller checks.
- Syscalls.Kernel.EnvAlloc: requires room in every ring, because a push on a full ring loses an entry, as Append says.
- Syscalls.Kernel.SysEnvSetPriority: requires room in the ring that the entry moves to, for the same reason.
- What the scheduler does with a ring after it has overflowed, with a dead entry whose slot is used again, or with counters past 2^31; and its round-robin build.
- MlfqSpec.BoundedWaiting: the environment stays runnable until it is dispatched, and at most n entries are queued.
- Smp.Exclusive: the scheduler may pick any runnable environment, keep the running one or halt, which is more than the queues allow; memory ordering is that of one step at a time.
- CowFork.CowRefinesEagerCopy: one duppage is one step, because HalfwayWriteLeaks shows that user writes between its two mappings would be seen; pages mapped shared on purpose are not part of the runs.
- CowFork.UserMemory.SysPageMap: over the flat map there is no lack of memory; CowPages.SysPageMap has it.
- CowPages.Run: stops before a mapping that a sixteen-bit count could not count, which the kernel does not; the environments are there when it starts and named by their page directories.
- Out-of-memory panics of the user library, sfork, and the version-0 fork.
- Directory buffers and paths as C strings at the edge of their capacity: a terminator one past the buffer, and paths of exactly MAX_PATH characters.
- FsDisk.LoadOfSave: writes that fail or end early, sizes and counts of 2^31 and more, and the content pointer of the struct, written as zeros.
- fisopfs_truncate, getattr and utimens: they change or report one inode and would only add easy members. A path that the parser of FUSE would not pass is covered by the exact condition of MakeKeepsExactly only.
- Fisopfs.FileSystem.ReadFile: is not asked to start behind the end of the file, where the length that the source computes is negative.
- The newline that add_dentry_to_content writes behind the path it was given, which getattr strips again.
- Kdebug.StabBinsearch: addresses up to 2^32 - 2, so that the increment does not wrap.
- Fork and pipe that fail, signals, process groups and waiting itself in the shell; MAXARGS, BUFLEN and the other sizes of its buffers.
- Parsing.ParseLineLoop: an '&' as the very first character is taken as background, where the code reads one character before the buffer; the byte after the end of the line is taken to be zero.
- history, cd, pwd, prompts and status messages.
- Numbers.StrtolLoop: overflow wraps on 32 bits, as the compiled code does.
