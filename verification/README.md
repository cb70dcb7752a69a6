# Verified model of an RT-Thread based lamp controller

The repository is the firmware of a lamp controller on top of the RT-Thread kernel. This project
models the parts of it whose correctness is hard to see from the code, and proves what they are for.
`dafny verify dfyconfig.toml` checks everything.

## What is modelled

* **Mutexes with priority inheritance** (`MutexState`, `MutexWalk`, `MutexSteps`, `MutexCalls`,
  `MutexSystem`, `MutexHolds`, `MutexCleanUps`, `MutexChains`, `MutexRings`, `MutexRuns`): nested
  ownership, sorted wait queues, priority ceilings, and the walk that carries a changed priority along a
  chain of blocked owners. The class `System` holds one sequence for each field of the source's
  structures; a run is any sequence of calls, timer expiries, ceiling changes and detached threads, where
  a timed-out waiter leaves the queue in one step and cleans up in a later one. `MutexCalls` says as a
  relation on values what each call does; `MutexCleanUps` follows runs with several clean-ups pending at
  once; `MutexRuns` has concrete runs.
* **The small heap** (`SmallMemLayout`, `SmallMemHeader`, `SmallMem`, `SmallMemRuns`): the heap is an
  array of words; block headers are words in it, and user data are the other words. A ghost layout says
  which blocks there are; the invariant says that the headers describe it, that the blocks tile the
  heap, that no two neighbours are free, and what `lfree` and `used` are. `SmallMemRuns` follows whole
  runs from the side of the users, who hold pointers and write data.
* **The memheap** (`MemheapLayout`, `MemheapPools`, `Memheap`, `MemheapRuns`, `Rings`): the circular
  chain of all blocks and the free list, which are two views of one memory, kept in agreement, and the
  data in the blocks, with 32-bit sums wherever they can wrap around. `MemheapRuns` follows whole runs.
  `BlockOwners` and `Memories` are what the users of both heaps have in common.
* **Message queue and mailbox** (`MessageNodes`, `MessageQueue`, `Mailbox`, `IpcLists`, `Deliveries`):
  the critical sections of all calls as steps of threads, with what a message-queue operation does to
  its node between two sections as further steps. A ghost history of deliveries is the specification.
* **Events and semaphores** (`Event`, `Semaphore`).
* **Schedulers** (`FindFirstSet`, `PriorityBits`, `ReadyQueue`, `Scheduler`, `TwoLevelIndex`,
  `MultiScheduler`, `MultiRuns`): the bit search in both forms, the ready lists with their priority
  words, and `rt_schedule` for one and for several processors; `MultiRuns` interleaves the steps of
  several processors and the interrupts that they send each other.
* **Worst-case stack analysis** (`WorstStackGraph`, `WorstStack`): the memoised search of `WCS.py` over
  an arbitrary call graph.
* **The table-driven CRC** (`Crc16`, `Tables`), against the bitwise definition of section 6.2.2 of the
  MODBUS over Serial Line Specification V1.02.
* **Formatted printing** (`Numerals`, `NumberFields`, `Formats`, `Conversions`, `Printing`):
  `rt_vsnprintf` with `print_number` and `skip_atoi`, configured as in the repository (32-bit, with
  precision and prefixes). `Conversions` says of the text alone what each conversion writes.
* **The single-slot lamp command transmitter** (`LampCommands`), interrupted between any two assignments.

`KernelLists` and `Wrappers` hold what several of these need. Where a class has a method `Run`, its
contract says what a whole run does: the state after it is that of a fold (`AfterAll`) of functions on
values, or a trace of such states, and the invariant holds at every step.

## Main results

* Mutexes: `MutexSystem.System.Run` with `MutexCalls.StepIsUnique` (safety of all runs),
  `MutexSystem.System.UpdatePriority` (the walk ends and repairs, on any wait-for graph),
  `MutexChains.InheritsFromChain` and `MutexRings.RingAdmitsStale` (transitive inheritance, exactly off
  the rings of waiting threads), `MutexSystem.System.Release` and `MutexSystem.System.Settle` (exactness
  as an if-and-only-if), `MutexCleanUps.RunAndSettle` (the same over whole runs, with any number of
  clean-ups pending), `MutexHolds.HoldIsTakesMinusReleases`.
* Heaps: `SmallMemRuns.Users.Run` and `MemheapRuns.Users.Run` (whole runs, pointers and data),
  `SmallMem.Heap.Realloc`, `Memheap.Heap.Realloc` with `MemheapPools.GrowthTestIff`,
  `MemheapRuns.PromiseKeptIff`, `Memheap.Heap.RefusedThoughItFits`.
* Messages: `MessageQueue.Queue.Run` and `Mailbox.Box.Run`, each with conservation, first in first out
  and no lost wake-up, and `MessageQueue.Queue.SendAndLink` and `MessageQueue.Queue.RecvAndCopy` from the
  message given to the bytes received; `Event.Object.Run` with `Event.Object.SendAndResume`;
  `Semaphore.Object.Run` with `Semaphore.ServedInOrder`.
* Schedulers: `Scheduler.Processor.Run`, `MultiScheduler.Multiprocessor.Schedule`,
  `MultiRuns.Machine.Run` (all interleavings of all processors), the yielding of both schedulers,
  `FindFirstSet.FormsAgree`, `TwoLevelIndex.Index.Lookup`.
* `WorstStack.Analyse` (whose depth the graph determines, `WorstStackGraph.WorstIsUnique`),
  `Crc16.Compute`, `Printing.Vsnprintf` with `Formats.FormatMeans` and `Conversions.NumberIsWritten`,
  `LampCommands.Transmitter.Run`.

## What turned out not to hold

* A waiter that timed out need not repair what its timeout disturbed. Its clean-up corrects the owner
  only if the owner runs at the priority of the waiter (ipc.c:1320); if the waiter got another priority
  since its timeout, the owner keeps what was lent to it, and the release of the mutex, which compares
  with the priority of the mutex (ipc.c:1472), does not correct it either. `MutexSystem.System.Settle`
  and `MutexSystem.System.GiveUp` state the guard as an if-and-only-if, `MutexCleanUps.SettlesIff` does
  for whole runs, and `MutexRuns.RunLateCleanUp` is a run after which a thread that owns nothing stays
  too urgent for good.
* A released mutex is handed to the first waiter without raising that thread to the ceiling of the
  mutex (ipc.c:1500-1509). `MutexSteps.ReleasedExact` and `MutexSystem.System.Release` say exactly when
  priorities stay exact: if and only if the new owner is at least as urgent as that ceiling.
  `MutexRuns.RunHandOver` is a run in which it is not.
* The priority of a thread that waits, through others, for itself can satisfy all equations that the
  code maintains and still come from no thread at all: `MutexRings.RingAdmitsStale`, and the run
  `MutexRuns.RunRing`. For all other threads it cannot: `MutexChains.InheritsFromChain`.
* The test for growth in place of the memheap, `nextsize + oldsize > newsize + RT_MEMHEAP_MINIALLOC`
  (memheap.c:431), is a 32-bit sum. For sizes from 2^32 - 23 to 2^32 - 8 it wraps around, and whenever the
  next block is free the code puts a free block into the header of the block itself and returns the
  pointer. `MemheapPools.GrowthTestIff` says that the test is the intended one for exactly the other
  sizes, `MemheapPools.RestIsInside` where the free block comes to lie, `Memheap.Heap.Realloc` that the
  heap stays valid if and only if the branch is not taken so, and `Memheap.GrowIntoHeader` is such a call.
* A reallocation of the memheap to more than 2^32 - 8 bytes is granted with the old block, cut to 16 bytes
  if it was larger than 56: `MemheapRuns.PromiseKeptIff`, `Memheap.HugeReallocation`.
* `rt_memheap_init` accepts a pool without room for two headers; `available_size` then wraps around:
  `MemheapPools.RoomForHeaders`. `rt_smem_init` accepts a control block that ends beyond the address
  space, and makes a heap outside its region: `SmallMem.HeapIsInRegion`, `SmallMem.HeapBeforeRegion`.
* The memheap refuses a request that its only free block would satisfy exactly (memheap.c:204); this is
  the only case in which a request that fits is refused: `Memheap.Heap.RefusedThoughItFits`. A new pool
  is such a case: `Memheap.RefuseAll`.
* On one processor `rt_thread_yield` is not round robin. The yield flag is cleared before the thread is
  inserted (scheduler_up.c:263, 277), so it goes to the front of its list, and two threads that yield
  keep the processor between them: `Scheduler.Processor.YieldRepeatedly`. The multiprocessor scheduler
  inserts first, and is round robin: `MultiScheduler.Multiprocessor.YieldRepeatedly`.
* The comment in `rt_exit_critical` calls 65535 the maximal depth of critical sections
  (scheduler_up.c:453-457), but the depth is a signed 16-bit word: after more than 32768 entries the
  first exit takes it for the last one and unlocks the scheduler (`Scheduler.FirstExitKeepsLock`).
* Changing the priority of a thread that runs on another processor does not tell that processor
  (thread.c:855-895): it goes on with a thread that is now less urgent than a waiting one. `MultiRuns.Demote`
  is such a run, and `MultiRuns.Machine.Run` says that this is the only way to get there.
* `RT_ALIGN` wraps for sizes above 2^32 - 8, and yields 0: `SmallMemLayout.RtAlignRoundsUp`. Both heaps
  grant such a request with a block that is far too small, and give the bytes asked for exactly for all
  other sizes (`SmallMem.HugeRequest`, `SmallMemLayout.AllocatedIsLargeEnough`, `Memheap.HugeRequest`,
  `MemheapPools.TakenIsLargeEnough`); a reallocation of the small heap to such a size releases the block
  (`SmallMem.HugeReallocation`).
* The `prev` word of the sentinel at the end of the small heap is not kept up to date (mem.c:356-359):
  a split of the last block leaves it behind, and only a merge that reaches the end makes it right.
  `SmallMemHeader.SplitBreaksSentinel` and `SmallMemHeader.MergeSentinel` say so for all layouts, and
  `SmallMem.SentinelComesAndGoes` shows it from the first allocation on. All other words of all headers
  are right: `SmallMemHeader.Represents`.
* `skip_atoi` adds a digit before it subtracts '0', so its int overflows for the 48 largest ints already:
  `Numerals.AtoiFits`, `Numerals.LargestIntOverflows`.
* The comment on `rt_vsnprintf` says that it returns the number of characters actually written to the
  buffer (kservice.c:1015). It returns the length of the whole text, stored or not: `Printing.Vsnprintf`.
* A precision of 0 drops all digits of a number, not only those of 0, and the field is then not filled:
  `NumberFields.NumberFillsItsField`, `NumberFields.PrecisionZeroForgets`. A field width cuts a longer
  string: `Formats.StringFillsItsField`, `Formats.StringIsCut`.

## Model

| member | source | states |
|---|---|---|
| `MutexSystem.System.Run` | rt-thread/src/ipc.c:1175-1543 | every run is a sequence of states, each of which follows from the one before by the next call; in all of them, whatever the order of takes, releases, ceiling changes, detaches, timeouts and clean-ups, no owner is less urgent than a thread queued on its mutex; as long as there was no timeout and no ceiling, every priority is exactly the inherited one |
| `MutexCalls.StepIsUnique` | rt-thread/src/ipc.c:1175-1543 | the relation that `Run` speaks of determines the next state, down to every priority and every place in a queue |
| `MutexHolds.HoldIsTakesMinusReleases` | rt-thread/src/ipc.c:1203-1466 | in every state of every run the hold count of a mutex is the number of takes by its owner since it was acquired, minus the releases; it is 0 without an owner and never above 255 |
| `MutexChains.InheritsFromChain` | rt-thread/src/ipc.c:751-845 | the priority of every thread that does not wait for itself is the minimum of the initial priorities of all threads transitively blocked on it, itself included, whether or not other threads are deadlocked |
| `MutexRings.RingAdmitsStale` | rt-thread/src/ipc.c:769-845 | for a thread that waits for itself that is false in general: the equations that the calls maintain have another solution, with the same owners and waiters, in which its priority comes from no thread |
| `MutexRuns.RunRing` | rt-thread/src/ipc.c:792-845 | a run without late clean-ups and ceilings that ends in such a state: two deadlocked threads keep the priority of a third one that has long left |
| `MutexChains.ChainRaises` | rt-thread/src/ipc.c:1251-1361 | in every reachable state, threads get no less urgent along a chain of owners, timeouts and deadlocks included |
| `MutexSystem.System.Settle` | rt-thread/src/ipc.c:1311-1350 | the clean-up of a waiter that left makes the mutex exact; with all else exact, everything is exact afterwards if and only if the owner ran at the priority of that waiter, which is the guard of the code, or has the priority it inherits anyway |
| `MutexSystem.System.GiveUp` | rt-thread/src/ipc.c:1309-1360 | the rest of a failed take: the same condition, and the thread no longer waits for the mutex |
| `MutexSteps.RefreshedExactIff` | rt-thread/src/ipc.c:1320-1321 | what the guard of the clean-up loses when it does not hold |
| `MutexRuns.RunLateCleanUp` | rt-thread/src/ipc.c:1311-1484 | a run in which the guard fails because the waiter got another priority between its timeout and its clean-up: a thread that owns nothing stays more urgent than by itself, and no clean-up is left |
| `MutexCleanUps.RunAndSettle` | rt-thread/src/ipc.c:1175-1543 | every run, ceilings and any number of pending clean-ups included: the threads have exactly the priorities they inherit and only mutexes with a pending clean-up a stale one, in all its states, if and only if every clean-up meets the guard or finds the owner right and no mutex is handed to a thread below its ceiling; and then everything is exact in each state in which no clean-up is pending |
| `MutexCleanUps.SettlesIff` | rt-thread/src/ipc.c:1310-1350 | that equivalence, for every run |
| `MutexCleanUps.StepSettles` | rt-thread/src/ipc.c:1175-1543 | and for every single call |
| `MutexCleanUps.WalkArrives` | rt-thread/src/ipc.c:792-845 | every walk allowed by the relation `MutexCalls.Walked` ends in a state that satisfies the invariant and keeps every exact priority exact |
| `MutexRuns.RunHandOver` | rt-thread/src/ipc.c:1500-1509 | a run at whose end a mutex is handed to a thread that does not get the priority of its ceiling |
| `MutexSystem.System.Perform` | rt-thread/src/ipc.c:1175-1543 | each call has exactly the effect that `MutexCalls.Step` states for it, keeps the ownership, queue-order and urgency invariant, and without timeouts and ceilings exactness |
| `MutexSystem.System.TimeOut` | rt-thread/src/ipc.c:1297-1360 | a timeout whose clean-up runs before any other call keeps exactness |
| `MutexSystem.System.Take` | rt-thread/src/ipc.c:1203-1279 | recursive take counts and is refused at 255, a free mutex is acquired with the taker raised to its ceiling, an owned one is refused or waited for; nothing else changes but the priorities carried along the chain |
| `MutexSystem.System.Acquire` | rt-thread/src/ipc.c:1219-1235 | taking a free mutex keeps the invariant and exactness |
| `MutexSystem.System.Enqueue` | rt-thread/src/ipc.c:1251-1279 | a waiter joins the queue as a multiset, everything else but priorities and queue orders is unchanged, and the invariant and exactness hold after the walk |
| `MutexSystem.System.FindSlot` | rt-thread/src/ipc.c:152-176 | the search loop finds exactly that position |
| `MutexSystem.System.GetMutexPriority` | rt-thread/src/ipc.c:769-789 | the loop computes the minimum of the initial priority and of all priorities and ceilings of the mutexes held |
| `MutexSystem.System.Requeue` | rt-thread/src/ipc.c:812-822 | one round of the walk: the thread is relinked at the slot of its new priority and the mutex refreshed |
| `MutexSystem.System.UpdatePriority` | rt-thread/src/ipc.c:792-845 | the walk along the owners ends, also on cyclic wait-for graphs; it ends in a state that satisfies the invariant, keeps every exact priority exact, and touches only priorities and queue orders |
| `MutexSystem.System.Expire` | rt-thread/src/ipc.c:1297-1309 | a timed-out waiter leaves the queue before its clean-up; the one-sided invariant holds in between |
| `MutexSystem.System.Detach` | rt-thread/src/ipc.c:952-997 | dropping a thread from the queue of a mutex, joined with unlinking it, keeps the invariant and, unlike a timeout, exactness |
| `MutexSystem.System.Release` | rt-thread/src/ipc.c:1452-1533 | only the owner releases; the last release hands the mutex to the first waiter; exactness is kept if and only if the new owner is not less urgent than the ceiling of the mutex it is handed |
| `MutexSystem.System.SetPrioCeiling` | rt-thread/src/ipc.c:1008-1032 | an out-of-range ceiling changes nothing and sets an error number; else the old ceiling is returned, and the owner gets the priority it inherits now, by one walk; the invariant and exactness are kept |
| `MutexState.LinkKeepsSorted` | rt-thread/src/ipc.c:152-176 | linking at that slot keeps a queue sorted and its head the minimum |
| `MutexState.RelinkSorts` | rt-thread/src/ipc.c:812-822 | relinking a thread whose priority changed sorts the queue again, and the head moves the way the priority moved |
| `MutexState.MinLent` | rt-thread/src/ipc.c:769-789 | the fold over the taken list is the greatest lower bound that is attained |
| `MutexState.ValidHasNoInversion` | rt-thread/src/ipc.c:1272-1279 | the invariant excludes priority inversion for every queued waiter, not only the first |
| `MutexSteps.AcquiredKeeps` | rt-thread/src/ipc.c:1219-1235 | after acquiring, only the new owner may be inexact, and by the ceiling only |
| `MutexSteps.QueuedKeeps` | rt-thread/src/ipc.c:1257-1274 | after queueing, only the owner may be too little urgent |
| `MutexSteps.LeftKeeps` | rt-thread/src/ipc.c:1297-1309 | after a timeout only the mutex left may be inexact, and it is too urgent rather than too little |
| `MutexSteps.PassedKeeps` | rt-thread/src/ipc.c:1500-1509 | handing the mutex over keeps the invariant |
| `MutexSteps.PassedExactIff` | rt-thread/src/ipc.c:1500-1509 | the new owner is exact if and only if the ceiling does not ask for more than its priority |
| `MutexSteps.ReleasedKeeps` | rt-thread/src/ipc.c:1463-1533 | a release keeps the invariant |
| `MutexSteps.ReleasedExact` | rt-thread/src/ipc.c:1463-1533 | a release keeps exactness if and only if it does not hand a mutex to a thread below its ceiling |
| `MutexWalk.RequeueRepairs` | rt-thread/src/ipc.c:812-822 | after one round all queues are in order and only the owner may be wrong |
| `MutexWalk.WalkProgress` | rt-thread/src/ipc.c:802-845 | the termination measure of the walk: every round that goes on repairs a stale priority or moves one more thread in the direction of the walk, on deadlocked chains too |
| `MutexWalk.NextRound` | rt-thread/src/ipc.c:827-833 | the loop invariant of the walk is kept from one owner to the next |
| `SmallMemRuns.Users.Run` | rt-thread/src/mem.c:280-558 | every run of allocations, reallocations and releases of pointers held does to blocks and pointers what a fold of simple functions says; every pointer that no call is given is still held at the end, with a block of the same size and the same data; throughout, the used blocks are exactly those whose pointers are held, none twice, and once all are released the heap is one free block with lfree and used at 0 |
| `SmallMemRuns.Users.Perform` | rt-thread/src/mem.c:280-558 | one call of such a run |
| `SmallMemRuns.Users.Realloc` | rt-thread/src/mem.c:422-507 | the pointer is kept, exchanged for a new one, or gone; the new block begins with the first min(old, new) bytes of the old one, and no other pointer or data is touched |
| `SmallMem.Init` | rt-thread/src/mem.c:179-243 | for all addresses and sizes, in 32-bit arithmetic: the region is aligned and the control block and two headers taken off; NULL exactly if they do not fit; else one free block of all that is left, with its sentinel |
| `SmallMem.HeapIsInRegion` | rt-thread/src/mem.c:187-199 | the heap lies in the region if and only if the end of the control block is not beyond the address space |
| `SmallMem.HeapBeforeRegion` | rt-thread/src/mem.c:187-199 | a region at the end of the address space for which it does not |
| `SmallMem.Heap.Alloc` | rt-thread/src/mem.c:280-408 | NULL exactly for size 0 or when no free block has enough data bytes; else the lowest block that fits is used, split or whole, and has the bytes asked for if and only if the size is at most 2^32 - 8; the tiling, the lowest-free cursor, the accounting and the data of all used blocks are kept |
| `SmallMemLayout.AllocatedIsLargeEnough` | rt-thread/src/mem.c:304-378 | the condition for a block as large as asked for |
| `SmallMem.HugeRequest` | rt-thread/src/mem.c:304-305 | a request above 2^32 - 8 bytes is granted with a block that is smaller |
| `SmallMem.HugeReallocation` | rt-thread/src/mem.c:436-447 | a reallocation to such a size releases the block |
| `SmallMemLayout.AlignedToZero` | rt-thread/src/mem.c:436-443 | which happens exactly for the sizes above 2^32 - 8 |
| `SmallMem.SentinelComesAndGoes` | rt-thread/src/mem.c:356-359 | the `prev` word of the sentinel of a new heap is wrong, is still wrong after the first allocation, right after a release, and wrong after the next allocation |
| `SmallMemHeader.SplitBreaksSentinel` | rt-thread/src/mem.c:342-359 | a sentinel that points to the last block still does after a split if and only if another block was split than the last |
| `SmallMemHeader.SplitSentinel` | rt-thread/src/mem.c:342-359 | a split does not write that word: after a split of the last block it is right only if it held the address of the new block already, after any other split exactly if it was right before |
| `SmallMemHeader.MergeSentinel` | rt-thread/src/mem.c:142-163 | after a merge it does exactly if it did before or the merge reached the end |
| `SmallMem.Heap.HeaderOf` | rt-thread/src/mem.c:128-166 | the three header words say next, prev and use of every block |
| `SmallMemHeader.SplitRepresents` | rt-thread/src/mem.c:342-359 | the header writes of a split describe the layout with the block split |
| `SmallMemHeader.MergeRepresents` | rt-thread/src/mem.c:142-163 | the header writes of a merge describe the layout without the block merged |
| `SmallMem.Heap.NextFree` | rt-thread/src/mem.c:389-390 | the loop moves the cursor to the lowest free block, or to the end |
| `SmallMem.Heap.PlugHoles` | rt-thread/src/mem.c:128-166 | merging forward and backward, as written to the headers, is the merge of the layout, and the cursor follows |
| `SmallMem.Heap.Free` | rt-thread/src/mem.c:516-558 | the block is free and merged with both free neighbours; all other data are kept; NULL does nothing |
| `SmallMem.Heap.AllocThenFree` | rt-thread/src/mem.c:280-558 | allocating and releasing at once restores layout, cursor and byte count |
| `SmallMem.Heap.Realloc` | rt-thread/src/mem.c:422-507 | aligned size 0 releases; NULL for another size leaves the heap and the block as they were and is returned exactly when the size is out of range or a new block is needed and none fits; a block that stays keeps its first bytes; a moved one has its first min(old, new) bytes copied; all other blocks keep their data |
| `SmallMem.Heap.Shrink` | rt-thread/src/mem.c:468-496 | the rest of the block is split off and merged with a free successor |
| `SmallMem.Heap.Move` | rt-thread/src/mem.c:498-506 | allocation, copy and release of the old block, or nothing at all |
| `SmallMemRuns.OwnedAllocated` | rt-thread/src/mem.c:403 | a pointer handed out is none of those held |
| `SmallMemLayout.RtAlignRoundsUp` | rt-thread/src/mem.c:304-305 | RT_ALIGN on 32-bit sizes rounds up if and only if it does not wrap; else it yields 0 |
| `SmallMemLayout.FirstFitIs` | rt-thread/src/mem.c:318-324 | the search finds the first fit |
| `SmallMemLayout.NothingFits` | rt-thread/src/mem.c:318-320 | starting at the lowest free block and stopping at mem_size_aligned - size misses no block that fits |
| `SmallMemLayout.LowestFit` | rt-thread/src/mem.c:318-324 | NULL exactly if every free block is too small; else the lowest that is not |
| `SmallMemLayout.AllocatedKeeps` | rt-thread/src/mem.c:324-378 | allocation keeps the tiling, leaves no two free neighbours and adds the extent of the block to the used bytes |
| `SmallMemLayout.AllocatedAbove` | rt-thread/src/mem.c:386-391 | allocating above the lowest free block leaves the cursor right |
| `SmallMemLayout.MergedKeeps` | rt-thread/src/mem.c:128-166 | merging keeps the tiling, the used bytes and the lowest free address, and leaves no free neighbours |
| `SmallMemLayout.FreedKeeps` | rt-thread/src/mem.c:543-557 | release keeps all invariants and subtracts the extent of the block |
| `SmallMemLayout.ShrunkKeeps` | rt-thread/src/mem.c:468-493 | shrinking in place keeps all invariants and subtracts the bytes given up |
| `SmallMemLayout.RemainderIsABlock` | rt-thread/src/mem.c:468 | a split by realloc leaves at least MIN_SIZE_ALIGNED data bytes although the test uses MIN_SIZE |
| `SmallMemLayout.FreeUndoesAllocation` | rt-thread/src/mem.c:280-558 | release undoes allocation for every layout and size |
| `SmallMemLayout.EmptyHeapIsWhole` | rt-thread/src/mem.c:128-166 | once no block is used the heap is one free block again |
| `MemheapRuns.Users.Run` | rt-thread/src/memheap.c:187-719 | every run of allocations, releases and reallocations of pointers held, to sizes for which the sum at line 431 does not wrap, does to blocks, free list and pointers what a fold of simple functions says; every pointer that no call is given is still held at the end, with a block of the same size and the same data; throughout, the used blocks are exactly those whose pointers are held, none twice, and once all are released the pool is one free block, alone on the free list |
| `MemheapRuns.Users.Realloc` | rt-thread/src/memheap.c:362-585 | whenever the call keeps the heap valid: the pointer is kept, exchanged for a new one, or gone, and no other pointer or data is touched; a block returned has the size asked for if and only if that is at most 2^32 - 8, and begins with the first min(old, new) bytes of the old one if and only if that is so or the old block had no more than 56 bytes |
| `MemheapRuns.PromiseKeptIff` | rt-thread/src/memheap.c:371-585 | these two conditions |
| `MemheapPools.GrowthTestIff` | rt-thread/src/memheap.c:431 | with a free block behind it, the test for growth in place agrees with the one intended if and only if its sum does not wrap; if it wraps the test holds, and the other does not |
| `MemheapPools.SumWrapsIff` | rt-thread/src/memheap.c:371-431 | which it does exactly for the sizes from 2^32 - 23 to 2^32 - 8 |
| `MemheapPools.RestIsInside` | rt-thread/src/memheap.c:431-472 | the free block then made lies within the header of the block that should have grown |
| `MemheapPools.NoBlockInside` | rt-thread/src/memheap.c:455-484 | where no valid pool has a free block |
| `Memheap.GrowIntoHeader` | rt-thread/src/memheap.c:431-484 | such a call, on any pool large enough: it returns the pointer, and the heap is not valid any more |
| `Memheap.HugeReallocation` | rt-thread/src/memheap.c:371-580 | a reallocation above 2^32 - 8 bytes returns the pointer to a block cut to 16 bytes |
| `MemheapPools.RoomForHeaders` | rt-thread/src/memheap.c:92-93 | available_size of a new pool is not more than the pool if and only if it has room for two headers |
| `Memheap.Heap.constructor` | rt-thread/src/memheap.c:79-154 | for every pool of less than 2^32 bytes that holds two headers after aligning its size down: one free block and the used block at its end, and the free list holds that block |
| `Memheap.Heap.Alloc` | rt-thread/src/memheap.c:187-347 | the first block on the free list that is large enough is taken, split or whole, a rest going to the front of the list, and is no larger than need be; NULL exactly when none is, or the request is not below the sum of all free bytes; chain, free list and available_size agree, and no bytes outside that block change |
| `MemheapPools.NothingFound` | rt-thread/src/memheap.c:204-234 | NULL exactly if the request is not below the sum of all free bytes or every free block is too small |
| `Memheap.RefuseAll` | rt-thread/src/memheap.c:204 | a new pool refuses a request for all its free bytes |
| `Memheap.GrantAllButAWord` | rt-thread/src/memheap.c:204-280 | and grants one for a word less, with all of the block |
| `Memheap.HugeRequest` | rt-thread/src/memheap.c:195-197 | a request above 2^32 - 8 bytes is granted with 16 bytes |
| `Memheap.Heap.Free` | rt-thread/src/memheap.c:594-719 | the block is free and merged with both neighbours, for every layout; it leads the free list unless it was merged into a free block before it; no data are written |
| `Memheap.Heap.MergeBoth` | rt-thread/src/memheap.c:647-707 | the two merges and the insertion, on chain, free list and available_size |
| `Memheap.Heap.AllocThenFree` | rt-thread/src/memheap.c:187-719 | allocating and releasing at once restores layout and available_size, and the free list but for the block that was found, which now leads it |
| `Memheap.Heap.Realloc` | rt-thread/src/memheap.c:362-585 | for every size: grows in place into a free neighbour, moves with the data, shrinks and merges, or keeps the block, each exactly under the condition of the code and with the exact free list; NULL for a size above 0 changes nothing; the heap is valid afterwards if and only if the block was not to grow by the wrapped sum |
| `Memheap.Heap.RefusedThoughItFits` | rt-thread/src/memheap.c:204 | a request that a free block could satisfy is refused if and only if that block is the only free one and exactly as large |
| `Memheap.Heap.EmptyPoolIsWhole` | rt-thread/src/memheap.c:642-684 | once no block is used the pool is one free block, the only one on the free list |
| `Memheap.Heap.Grow` | rt-thread/src/memheap.c:414-484 | growth in place: the rest of the free neighbour becomes the first of the free list, and only bytes of that neighbour change |
| `Memheap.Heap.CutOff` | rt-thread/src/memheap.c:520-575 | shrinking in place, with the merge of the rest with a free successor |
| `Memheap.Heap.Move` | rt-thread/src/memheap.c:493-501 | the block that the search finds is taken, the data copied and the old block released, exactly if there is such a block; else nothing changes |
| `MemheapLayout.BytesAddUp` | rt-thread/src/memheap.c:92-93 | used bytes, free bytes and headers of free blocks are all bytes of the pool |
| `MemheapLayout.TakenKeeps` | rt-thread/src/memheap.c:240-312 | taking a block keeps the tiling, the minimum size of every block and the sum of free bytes |
| `MemheapLayout.GrownKeeps` | rt-thread/src/memheap.c:411-484 | growth in place does |
| `MemheapLayout.CutKeeps` | rt-thread/src/memheap.c:520-575 | shrinking in place does |
| `MemheapLayout.FreedKeepsAll` | rt-thread/src/memheap.c:642-684 | release does, gaining a header for each free neighbour |
| `MemheapLayout.FreeUndoesTaking` | rt-thread/src/memheap.c:187-719 | release undoes allocation for every layout and size |
| `MemheapLayout.FreeListLength` | rt-thread/src/memheap.c:221-232 | the free list is as long as there are free blocks |
| `Rings.RemoveLeavesTwoRings` | rt-thread/include/rtservice.h:86-92 | removing a node leaves the ring without it and makes the node a ring of its own |
| `Rings.InsertKeepsRing` | rt-thread/include/rtservice.h:58-80 | inserting a node into a circular doubly linked list |
| `MessageQueue.Queue.constructor` | rt-thread/src/ipc.c:2968-2986 | all nodes are linked on the free list |
| `MessageQueue.Queue.Run` | rt-thread/src/ipc.c:3206-3881 | every interleaving of the sections of send, urgent and receive, the copying between them, resets and timeouts does to nodes, lists and threads what a fold of functions on values says, and the invariant holds throughout |
| `MessageQueue.Queue.Perform` | rt-thread/src/ipc.c:3206-3881 | each critical section, and each step between two, has its effect and keeps the invariant |
| `MessageQueue.Queue.Send` | rt-thread/src/ipc.c:3228-3322 | refusals, waiting and the node taken, by size, free list and timeout; the message kept for the node is the one given |
| `MessageQueue.Queue.SendAndLink` | rt-thread/src/ipc.c:3206-3400 | from a send to its end, whatever other threads do meanwhile: the message linked behind the others is the one that the call was given, and with a free node it is linked once the node is filled |
| `MessageQueue.Queue.UrgentAndLink` | rt-thread/src/ipc.c:3491-3571 | the same for an urgent message, which is linked in front |
| `MessageQueue.Queue.RecvAndCopy` | rt-thread/src/ipc.c:3636-3771 | the bytes that a receive copies in the end are those of the message that was due first when it was taken, cut to the buffer, whatever is done meanwhile |
| `MessageQueue.Queue.SendSection` | rt-thread/src/ipc.c:3242-3322 | the first section, entered anew by a woken sender |
| `MessageQueue.Queue.Fill` | rt-thread/src/ipc.c:3327-3333 | writing the node outside the critical section disturbs nobody |
| `MessageQueue.Queue.LinkMessage` | rt-thread/src/ipc.c:3364-3387 | the message is due last, or first if urgent; the branch for an entry overflow cannot be reached |
| `MessageQueue.Queue.Link` | rt-thread/src/ipc.c:3335-3400 | the message sent is linked and a receiver resumed |
| `MessageQueue.Queue.Urgent` | rt-thread/src/ipc.c:3502-3530 | never waits |
| `MessageQueue.Queue.Recv` | rt-thread/src/ipc.c:3636-3727 | the message due first is taken off the list, or the caller waits or is refused |
| `MessageQueue.Queue.Copy` | rt-thread/src/ipc.c:3732-3738 | the bytes copied are those of that message, cut to the size of the buffer |
| `MessageQueue.Queue.Release` | rt-thread/src/ipc.c:3744-3763 | the node is free again and a sender resumed |
| `MessageQueue.Queue.Expire` | rt-thread/src/ipc.c:3301-3306 | a waiter that gives up breaks no promise |
| `MessageQueue.Queue.Reset` | rt-thread/src/ipc.c:3842-3870 | all messages are released while nodes held between two sections stay held; all waiters leave both queues with an error |
| `MessageQueue.Queue.NodesConserved` | rt-thread/src/ipc.c:2973-2983 | free nodes, entry and nodes held by threads add up to max_msgs, always |
| `MessageQueue.Queue.OnePlaceOnly` | rt-thread/src/ipc.c:3321-3333 | a node held by a thread is on neither list and held by no other |
| `MessageQueue.Queue.NoLostWakeUp` | rt-thread/src/ipc.c:3389-3400 | once all resumed threads have run, receivers wait only for an empty list and senders only without a free node |
| `MessageQueue.Queue.FifoInNodes` | rt-thread/src/ipc.c:3206-3771 | without urgent messages and resets, messages taken followed by those in the nodes, in pointer order, are the messages linked, in order |
| `MessageQueue.Queue.NothingLostInNodes` | rt-thread/src/ipc.c:3206-3771 | with urgent ones too, as multisets |
| `MessageNodes.ChainIsUnique` | rt-thread/src/ipc.c:3714-3721 | the lists are determined by their pointers |
| `Deliveries.FirstInFirstOut` | rt-thread/src/ipc.c:3364-3375 | first in, first out, for every history of puts and takes in order |
| `Deliveries.NothingLost` | rt-thread/src/ipc.c:3364-3375 | nothing is lost, repeated or made up |
| `Deliveries.UrgentIsNext` | rt-thread/src/ipc.c:3535-3537 | an urgent message is the next one taken |
| `IpcLists.Lists.Suspend` | rt-thread/src/ipc.c:131-187 | a thread is linked at some position of a wait list |
| `IpcLists.Lists.Resume` | rt-thread/src/ipc.c:209-224 | the first waiter of the list, and no other, is resumed and promised what it waited for |
| `IpcLists.Lists.ResumeAll` | rt-thread/src/ipc.c:240-268 | all waiters return with an error, and no promise is made |
| `Mailbox.Box.constructor` | rt-thread/src/ipc.c:2168-2197 | an empty ring |
| `Mailbox.Box.SendSection` | rt-thread/src/ipc.c:2406-2511 | stores, waits or is refused by entry and timeout; one receiver is resumed |
| `Mailbox.Box.Send` | rt-thread/src/ipc.c:2379-2517 | the value stored is the one given; the first receiver is resumed |
| `Mailbox.Box.SendLater` | rt-thread/src/ipc.c:2418-2511 | and so is the value that a send stores which had to wait, whatever was done meanwhile |
| `Mailbox.Box.Urgent` | rt-thread/src/ipc.c:2593-2645 | stores in front of the ring and wakes a receiver |
| `Mailbox.Box.Recv` | rt-thread/src/ipc.c:2698-2811 | takes the value due first, waits or is refused; one sender is resumed |
| `Mailbox.Box.Reset` | rt-thread/src/ipc.c:2853-2866 | an empty ring and empty queues |
| `Mailbox.Box.Run` | rt-thread/src/ipc.c:2379-2877 | every run does to values, lists and threads what a fold of functions on values says, and ring, order and wake-up accounting hold throughout |
| `Mailbox.Box.Perform` | rt-thread/src/ipc.c:2379-2877 | each critical section has its effect and keeps the invariant |
| `Mailbox.Box.NoLostWakeUp` | rt-thread/src/ipc.c:2500-2511 | once all resumed threads have run, receivers wait only for an empty mailbox and senders only for a full one |
| `Mailbox.Box.FifoInRing` | rt-thread/src/ipc.c:2482-2487 | first in, first out, read from the cells of the ring |
| `Mailbox.Box.NothingLostInRing` | rt-thread/src/ipc.c:2612-2626 | nothing is lost, urgent values included |
| `Event.Object.SendAndResume` | rt-thread/src/ipc.c:1784-2036 | a waiting thread that a send satisfies returns with the flags that this send granted to it, whatever other threads do with the event before it runs |
| `Event.Object.Send` | rt-thread/src/ipc.c:1784-1879 | each waiter is judged by the flags set before or sent now, resumed if they satisfy it, with those of its flags that are set, and else left alone; a flag is set afterwards if and only if it was or was sent, and no satisfied waiter clears it |
| `Event.Object.JudgeAll` | rt-thread/src/ipc.c:1810-1864 | the loop judges each waiter once |
| `Event.Object.Recv` | rt-thread/src/ipc.c:1934-2007 | granted, refused or waiting by AND/OR condition and timeout; the flags wanted are cleared exactly if the receive is granted and has the clear option |
| `Event.Object.RecvTwice` | rt-thread/src/ipc.c:1960-1981 | a second identical receive is granted if and only if the first did not have the option |
| `Event.AllOrAny` | rt-thread/src/ipc.c:1816-1835 | a wish is satisfied by all of its flags, or by any of them |
| `Event.Object.Run` | rt-thread/src/ipc.c:1784-2118 | every run does what a fold of functions on values says, and after it no thread waits whose condition is satisfied |
| `Event.EachJudged` | rt-thread/src/ipc.c:1816-1863 | the outcome for a waiter does not depend on its place on the list |
| `Event.ClearedIsGranted` | rt-thread/src/ipc.c:1853-1868 | exactly what satisfied waiters with the clear option were granted is cleared |
| `Semaphore.Object.Take` | rt-thread/src/ipc.c:525-592 | granted exactly while the value is above 0 |
| `Semaphore.Object.Release` | rt-thread/src/ipc.c:657-693 | with waiters, the first of the list is resumed and the others wait on; else the unit is counted, or refused at the maximum |
| `Semaphore.Object.ReleaseRepeatedly` | rt-thread/src/ipc.c:657-693 | n releases wake the first n waiters in the order of the list |
| `Semaphore.ServedInOrder` | rt-thread/src/ipc.c:525-693 | first come, first served: in every run in which later waiters are linked behind, the releases wake those that waited, in the order of their list, whatever other threads do |
| `Semaphore.Object.Reset` | rt-thread/src/ipc.c:716-740 | all waiters leave and the value is set |
| `Semaphore.Object.Run` | rt-thread/src/ipc.c:502-743 | every run does what a fold of functions on values says; after it a value above 0 means no waiters, and initial value plus releases is value plus grants |
| `Scheduler.Processor.Run` | rt-thread/src/scheduler_up.c:228-492 | throughout every run the processor, which looks at the priority word, does what the lists alone ask for; lists, word and threads agree; and after a scheduling, a yield or the exit from a critical section that leaves the scheduler unlocked no ready thread is more urgent than the running one |
| `Scheduler.FirstExitKeepsLock` | rt-thread/src/scheduler_up.c:448-492 | after up to 65535 nested entries the first exit leaves the scheduler locked if and only if there were at most 32768 |
| `MultiRuns.Machine.Run` | rt-thread/src/scheduler_mp.c:260-742 | every interleaving of the steps of all processors: a processor does not run the most urgent thread that may run on it only while an interrupt, a switch at the end of one, the exit from a critical section or a call of its scheduler is due, or because another processor has made its thread less urgent; once nothing is due, every other processor runs one |
| `MultiRuns.Machine.Perform` | rt-thread/src/scheduler_mp.c:260-742 | each step, with exactly which processors owe a call of the scheduler and which have been demoted after it |
| `MultiRuns.Demote` | rt-thread/src/thread.c:855-895 | a run in which a processor goes on with a thread that another one made less urgent than a waiting thread, with nothing pending |
| `TwoLevelIndex.Index.Insert` | rt-thread/src/scheduler_up.c:376-397 | with up to 256 priorities: the thread is linked, and both levels of bits still say which lists are not empty |
| `TwoLevelIndex.Index.Remove` | rt-thread/src/scheduler_up.c:424-433 | the thread is unlinked; the bit of a list that became empty is cleared, and that of its byte if it was the last |
| `TwoLevelIndex.Index.Lookup` | rt-thread/src/scheduler_up.c:150-162 | the two searches give what a search through all lists would give, the least priority with a ready thread, and its first thread |
| `TwoLevelIndex.Index.Nonempty` | rt-thread/src/scheduler_up.c:242 | the word is 0 exactly when nothing is ready |
| `MultiScheduler.Multiprocessor.YieldRepeatedly` | rt-thread/src/scheduler_mp.c:313-349 | round robin: after n yields the thread at position n of the ring runs, for n up to its length the n-th of the ring and then the first again, and so on |
| `MultiScheduler.Multiprocessor.HighestThread` | rt-thread/src/scheduler_mp.c:143-177 | of both queues, including an empty one, the first of the most urgent threads that may run here, and on a tie one that is bound to the processor |
| `FindFirstSet.FfsFinds` | rt-thread/src/kservice.c:2009-2032 | the search by bytes finds the lowest set bit of every word |
| `FindFirstSet.FormsAgree` | rt-thread/src/kservice.c:1973-1976 | the form by remainders of 37 agrees with it on every word |
| `FindFirstSet.TinyAt` | rt-thread/src/kservice.c:1953-1959 | the table of 37 entries turns each power of two back into its exponent |
| `PriorityBits.SettingAdds` | rt-thread/src/ipc.c:1806 | setting a bit of a word adds it to the set of its bits |
| `PriorityBits.ClearingRemoves` | rt-thread/src/ipc.c:1868 | clearing one removes it |
| `PriorityBits.SearchIsLeast` | rt-thread/src/scheduler_up.c:153-154 | the search finds the least member of the set |
| `ReadyQueue.InsertedAgrees` | rt-thread/src/scheduler_up.c:376-397 | inserting keeps a bit set exactly where a list is not empty |
| `ReadyQueue.RemovedAgrees` | rt-thread/src/scheduler_up.c:424-436 | removing does |
| `ReadyQueue.HighestIsLeast` | rt-thread/src/scheduler_up.c:145-167 | the lookup gives the least priority with a ready thread |
| `ReadyQueue.SearchesAgree` | rt-thread/src/scheduler_up.c:145-167 | the search in the word gives what a search through the lists would give |
| `Scheduler.Processor.InsertThread` | rt-thread/src/scheduler_up.c:359-402 | ready threads are on the list of their priority and nowhere else; the running thread stays off |
| `Scheduler.Processor.RemoveThread` | rt-thread/src/scheduler_up.c:411-441 | the thread is on no list |
| `Scheduler.Processor.Schedule` | rt-thread/src/scheduler_up.c:228-349 | if unlocked, the thread on the processor makes way exactly if a ready thread is there and it does not run, is less urgent, or is as urgent and yields; which thread runs then, where the displaced one goes, and that no ready thread is more urgent than the one running |
| `Scheduler.Processor.Resume` | rt-thread/src/thread.c:1046-1084 | a suspended thread becomes ready, at the end of its list if it yields and else at the head; any other is left alone |
| `Scheduler.Processor.SuspendSelf` | rt-thread/src/thread.c:982-1029 | the running thread is suspended and on no list |
| `Scheduler.Processor.ChangePriority` | rt-thread/src/thread.c:843-896 | a ready thread moves to the list of its new priority |
| `Scheduler.Processor.Yield` | rt-thread/src/thread.c:588-601 | the yielding thread goes to the front of its list |
| `Scheduler.Processor.ExitCritical` | rt-thread/src/scheduler_up.c:467-492 | the count goes down; leaving the outermost critical section schedules, any other changes nothing else |
| `Scheduler.Processor.Perform` | rt-thread/src/scheduler_up.c:228-492 | each call has its effect, stated on lists without the word |
| `Scheduler.Processor.YieldRepeatedly` | rt-thread/src/scheduler_up.c:255-278 | yielding is not round robin: after n yields the processor is with one of the same two threads, whatever n and however many threads of that priority wait |
| `MultiScheduler.Multiprocessor.InsertThread` | rt-thread/src/scheduler_mp.c:512-596 | a thread goes to the global or to its own local queue, at the end if it yields, and the other processors that may run it are sent an interrupt; one that is still on a processor runs on |
| `MultiScheduler.Multiprocessor.RemoveThread` | rt-thread/src/scheduler_mp.c:605-655 | and leaves it |
| `MultiScheduler.Multiprocessor.Schedule` | rt-thread/src/scheduler_mp.c:270-396 | if the processor is not locked, the thread on it makes way exactly if a ready thread may run here and it does not run itself, may not run here, is less urgent, or is as urgent and yields; otherwise nothing changes; afterwards no ready thread that may run here is more urgent; other processors keep their threads; oncpu and current_thread agree; a yielding unbound thread goes to the end of its list |
| `MultiScheduler.Multiprocessor.IrqSwitch` | rt-thread/src/scheduler_mp.c:403-502 | at the end of an interrupt, the scheduling asked for meanwhile, with the same condition for making way |
| `MultiScheduler.Multiprocessor.HandleIpi` | rt-thread/src/scheduler_mp.c:260-263 | the interrupt asks for one |
| `MultiScheduler.Multiprocessor.ChangePriority` | rt-thread/src/thread.c:843-896 | a ready thread moves to the list of its new priority, and other processors are told; for any other thread only the number changes |
| `MultiScheduler.Multiprocessor.Resume` | rt-thread/src/thread.c:1046-1084 | a suspended thread becomes ready and others are told, or runs on if it has not left its processor |
| `MultiScheduler.Multiprocessor.Exchange` | rt-thread/src/scheduler_mp.c:329-338 | the displaced thread is inserted before its yield flag is cleared |
| `MultiScheduler.Multiprocessor.Yield` | rt-thread/src/thread.c:588-601 | the list of the priority is rotated |
| `WorstStack.Analyse` | rt-thread/tools/WCS.py:223-299 | for every call graph, cyclic ones included, unbounded exactly where a call path leads to a pointer call or to a function already on it; else the maximum of the summed stacks over all call paths, and exactly the unresolved names that some path leads to |
| `WorstStack.Analysis.ResolveCalls` | rt-thread/tools/WCS.py:224-233 | found and unresolved calls of one function |
| `WorstStack.Analysis.CalcWcs` | rt-thread/tools/WCS.py:246-290 | the recursion ends; results once given are not changed; a result for a function on the stack is unbounded, and so is the one just computed |
| `WorstStack.Analysis.SumCalls` | rt-thread/tools/WCS.py:269-290 | the loop over the calls |
| `WorstStack.Analysis.CalcAllWcs` | rt-thread/tools/WCS.py:292-299 | every function gets a result, in whatever order they are visited |
| `WorstStackGraph.FindFxn` | rt-thread/tools/WCS.py:84-99 | a global function hides a local one of the same name |
| `WorstStackGraph.OnStackUnbounded` | rt-thread/tools/WCS.py:264-267 | a function met again on the stack is recursive |
| `WorstStackGraph.WithinResult` | rt-thread/tools/WCS.py:280-290 | every call path stays within a finite result |
| `WorstStackGraph.ReachesResult` | rt-thread/tools/WCS.py:280-290 | and some path attains it |
| `WorstStackGraph.ResultsAreRight` | rt-thread/tools/WCS.py:246-290 | results that follow from each other are right |
| `Crc16.Compute` | applications/crc16.c:80-94 | for every byte sequence the two-table CRC is the byte-swapped bitwise CRC with polynomial 0xA001 and initial value 0xFFFF (section 6.2.2 of the MODBUS over Serial Line Specification V1.02) |
| `Crc16.TablesAreShifts` | applications/crc16.c:8-67 | each entry of the two tables is eight shifts of its index |
| `Crc16.RoundIsStep` | applications/crc16.c:87-91 | one round of the loop is one byte of the definition |
| `Crc16.NeighbouringErrorDetected` | applications/crc16.c:80-94 | two messages of equal length that differ only within two neighbouring bytes have different CRCs |
| `Crc16.FrameChecks` | applications/crc16.c:80-94 | the CRC of a frame is 0 exactly if the frame ends in the CRC of its message |
| `Crc16.StepInjective` | applications/crc16.c:87-91 | no round loses information |
| `Printing.Vsnprintf` | rt-thread/src/kservice.c:1017-1333 | for every format, arguments and size: the result is the length of the whole text, the buffer holds the prefix that fits and a NUL after it, and no other byte of the buffer is written |
| `Printing.Printer.Format` | rt-thread/src/kservice.c:1046-1317 | the loop over the format writes the text that the format asks for |
| `Printing.Printer.Directive` | rt-thread/src/kservice.c:1061-1316 | one directive, known or unknown, or cut off by the end of the format |
| `Printing.Printer.PrintNumber` | rt-thread/src/kservice.c:774-1002 | sign, prefix, zeros, digits and filling in the order of the code |
| `Printing.Printer.Put` | rt-thread/src/kservice.c:1050-1055 | a character counts even when there is no room for it |
| `Printing.Printer.SkipAtoi` | rt-thread/src/kservice.c:757-764 | the loop reads exactly the leading digits, as a decimal number |
| `Numerals.Convert` | rt-thread/src/kservice.c:869-879 | the digit loop; 32 places are enough for every word in every base |
| `Numerals.NumeralReadsBack` | rt-thread/src/kservice.c:869-879 | digits read back as the number, in every base |
| `Numerals.LeadingReadsBack` | rt-thread/src/kservice.c:757-764 | skip_atoi, on unbounded numbers, recovers every number from its decimal digits, whatever follows them |
| `Numerals.AtoiFits` | rt-thread/src/kservice.c:757-764 | the sums of skip_atoi are ints if and only if the number is at most the largest int minus 48, since the digit is added before 48 is subtracted |
| `Numerals.LargestIntOverflows` | rt-thread/src/kservice.c:757-764 | the largest int is a number for which they are not |
| `NumberFields.NumberReadsBack` | rt-thread/src/kservice.c:774-1002 | whatever the flags, width and precision but 0, the decimal text of a word reads back as the number meant |
| `NumberFields.BodyReadsBack` | rt-thread/src/kservice.c:869-988 | the same for the digits in every base, with any zeros before them |
| `Formats.FormatMeans` | rt-thread/src/kservice.c:1046-1317 | a format written from its parts, flags, widths, precisions, qualifiers and arguments taken by `*` included, renders as the texts of its parts one after another |
| `Conversions.NumberIsWritten` | rt-thread/src/kservice.c:774-1316 | `%b`, `%o`, `%x`, `%X`, `%d` and `%u` with any flags, width, precision but 0 and qualifier: blanks, sign, prefix, digits and blanks; the digits read back as the argument in base 2, 8, 16, 16, 10 and 10, with letters a-f for `x` and A-F for `X`; blanks are on the side that the flags say and fill the field, and zeros are only those of precision and field |
| `Conversions.PointerIsWritten` | rt-thread/src/kservice.c:1213-1236 | `%p`: the argument in base 16, by default as 0x and eight digits |
| `Conversions.CharacterIsWritten` | rt-thread/src/kservice.c:1139-1167 | `%c`: the character at one end of its field, by the `-` flag, and blanks |
| `Conversions.StringIsWritten` | rt-thread/src/kservice.c:1169-1211 | `%s`: as many of the first characters as width and a precision above 0 leave, whole if and only if neither is smaller, and blanks on the side that the `-` flag says; "(NULL)" for the null pointer |
| `Conversions.PlainNumbers` | rt-thread/src/kservice.c:1238-1284 | the directives of two characters, by their letters, `%i` and `%%` included |
| `Conversions.ArgumentsTaken` | rt-thread/src/kservice.c:1084-1316 | a directive takes an argument for each `*` and one for its conversion, and `%%` none for that |
| `Conversions.UnknownIsKept` | rt-thread/src/kservice.c:1286-1304 | a directive that is not known is written as it stands and takes no argument |
| `Conversions.PointAlone` | rt-thread/src/kservice.c:1101-1121 | a point without a number is a precision of 0 |
| `Formats.DecimalReadsBack` | rt-thread/src/kservice.c:1061-1316 | what `%d` with any flags, width, precision but 0 and qualifier writes reads back as its argument |
| `Formats.HeadReadsBack` | rt-thread/src/kservice.c:1061-1137 | every directive is read as what it was written from |
| `LampCommands.Transmitter.Run` | applications/lmsuart.c:51-125 | with the interrupt between any two assignments of the producer, the bytes of long frames on the line are the accepted frames, whole and in order, and a prefix of the last; each byte sent is the next byte of the stream of accepted frames |
| `LampCommands.Transmitter.SendOne` | applications/lmsuart.c:51-125 | a request that finds the slot open is sent, whole, and the slot is open again |
| `LampCommands.Transmitter.FrameReadsBack` | applications/lmsuart.c:60-66 | segment, half of the order and a check sum of four bits can be read from the frame |
| `LampCommands.Transmitter.Continue` | applications/lmsuart.c:59-67 | the assignments of the producer, of which only that of the lock accepts the request and only the last starts the sending |
| `LampCommands.Transmitter.Interrupt` | applications/lmsuart.c:97-125 | one byte is sent, or the slot opened again |
| `LampCommands.Transmitter.Call` | applications/lmsuart.c:53-54 | a request that finds the slot taken is dropped |

## Left out

- MutexSystem.System.Run: exactness is not claimed for runs with timeouts, after which a mutex or its owner may keep the priority of a waiter that has left, for good if the guard in `MutexSystem.System.GiveUp` fails; when it holds for such runs is `MutexCleanUps.RunAndSettle`. The bound that excludes inversion is claimed for all runs.
- MutexChains.InheritsFromChain: assumes unset ceilings; ceilings are part of the local equations (`MutexState.Inherited`).
- MutexSystem.System.Detach: the thread leaves its queue and the mutex drops it in one step. In the code rt_schedule_remove_thread unlinks the thread in a section of its own before (thread.c:430-434); between the two the thread is on no queue while its state still says that it waits, and a walk that reaches it there would link it anew, until the second section unlinks it again. That window is not modelled. A detached thread is from then on an idle thread of the model, which still owns the mutexes it held, and which a later step may use again.
- Mutex detach and delete, which wake all waiters without correcting the owner, are not modelled.
- thread.c and the timers appear as changes of thread fields and moves between lists; which thread runs next is left open in the models of mutexes, queues, events and semaphores, and a timer may expire at any time.
- Suspending a thread always succeeds; the refusal by a pending signal exists only with RT_USING_SMART.
- IpcLists.Lists.Suspend: the place where a waiter is linked is any place, which covers the FIFO and the priority flag; the sorted order itself is proved for mutexes only.
- Mailbox.Box.Run, MessageQueue.Queue.Run: time is not modelled; each entry of a section is given what is left of its timeout as a parameter.
- MessageQueue.Queue.Send: the variant with message priorities (RT_USING_MESSAGEQUEUE_PRIORITY) is not configured and not modelled, and the queue may have no node at all, which rt_mq_init refuses.
- Event.Object.Recv: an event is a set of bit numbers; that setting, clearing and searching bits of a word are set operations is `PriorityBits`. The AND/OR option is one of both, as the code asserts.
- SmallMem.Init: addresses of the heap are counted from the start of its memory, and that memory is whatever the wrapped sums of the code say; `SmallMem.HeapIsInRegion` says when it is within the region given.
- SmallMem.Heap.Realloc: the ghost parameter `i` names the block that the pointer was handed out for; a pointer that was not handed out is outside what the code supports. The same holds for Free in both heaps.
- The small heap's memory is one word for each byte offset, three of which at the start of a block are its header words; memory tracing, assertions and logging are left out.
- The headers of the memheap are sequences by address, and a header that comes into being overwrites the data in its place; the bits of the magic word but the lowest, the null pointers written into blocks that leave the free list, its semaphore, and RT_MEMHEAP_BEST_MODE are left out.
- Memheap.Heap.Alloc: that NULL is returned only for lack of room holds but for the case in `Memheap.Heap.RefusedThoughItFits`.
- Memheap.Heap.constructor: a pool without room for two headers, for which the subtraction of the code wraps around, is excluded; `MemheapPools.RoomForHeaders` says which these are.
- Memheap.Heap.Realloc: once a free block was put into the header of a used one the heap is not valid and nothing is said about later calls; headers that overlap are separate fields of the model, so that state is described only as far as the new free block goes.
- MemheapRuns.Users.Run: the calls are those for which the sum of the growth test does not wrap, for the same reason; the sizes excluded are those in `MemheapPools.SumWrapsIff`.
- Scheduler.Processor.Schedule: context switches, hooks, signals, stack checks and interrupt nesting are left out; interrupts disabled are the boundary of a step.
- MultiScheduler.Multiprocessor.Schedule: rt_thread_cpu_bind is left out; the lock counts are those found once the scheduler has taken the lock that all processors share, and have no bound; and the configuration with more than 32 priorities, whose lookup reads a table at -1 when a queue is empty, is not modelled for several processors.
- MultiRuns.Machine.Run: that a thread which made others ready calls the scheduler afterwards is up to the code that it runs; until then its processor counts as owing that call. When an interrupt sent is taken is left open.
- MultiScheduler.Multiprocessor.YieldRepeatedly: threads of that priority bound to a processor, arrivals, and other processors that take threads from the global queue are excluded.
- TwoLevelIndex.Index.Insert: the states of threads and which end of the list they go to are those of `Scheduler`, and are not repeated here; a byte is the word to which it is promoted.
- WorstStack.Analyse: reading the output of the compiler is left out; dictionaries are compared by identity of function and not by their contents, and the order in which they are visited is any order; nothing is said about the unresolved names of an unbounded function.
- Printing.Vsnprintf: buffers are within the address space, so the end pointer does not wrap; `rt_vsprintf`, which passes the largest size, is the case of a buffer with room for the whole text. The argument list is a sequence of words without end, since the code reads whatever a conversion asks for; string arguments are addresses of strings without NUL.
- Printing.Printer.SkipAtoi: field widths and precisions are numbers without bound; when the int of the code overflows is `Numerals.AtoiFits`. The negation of the smallest int for a `*` width overflows too.
- Numerals.LeadingReadsBack: on the same unbounded numbers.
- Formats.FormatMeans: a width of 0 cannot be written as digits, since it reads as a flag, and is excluded from the parts.
- The long-long configuration of printing is not modelled.
- LampCommands.Transmitter.Run: there is one producer, as in the repository; GenSyncFrame and crc4_itu are parameters; fields of the protocol state that do not affect what is sent are left out.
- Memory pools, the button debouncer, rt_memmove and the aligned allocation would add members of the same kind with shorter proofs.
- Device drivers, board start-up, menus, the display, Modbus and CAN threads, floating-point calibration, object naming and build scripts are not part of this model.
