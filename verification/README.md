# Verified model of the FOS kernel's core

FOS is a small teaching kernel in C. This project models the parts of it that keep state
and do arithmetic, and proves what they promise:

- **Scheduling.** `Scheduler` is the process queues as one value and each kernel operation
  on them, `SchedulerSteps` what each does to every queue and process, `SchedulerRuns` what
  holds over whole runs (one home per process, no queue index below zero, bounded waiting),
  `SchedulerCrowds` that the bound on their number is exact, `SchedulerRounds` whose turn it
  is (round robin, sleepers of a channel, life cycle of a process), and `ProcessQueues` the
  code itself, loop by loop.
- **Synchronisation.** `Channel`, `Semaphore` and `SleepLock` are step-by-step state
  machines with the guard lock and the queue lock explicit, for any interleaving of any
  number of callers.
- **Memory.** `BlockHeap` and `BlockAllocator` are the size-class block allocator, `Memory`
  and `MemoryManager` frames, page-table entries, reference counts and the reverse map,
  `Holes`, `KernelPages` and `KernelHeap` the kernel's page allocator.
- **Page file.** `PageFile` and `PageFileManager`: two-level disk tables, free frames and
  the frames themselves.
- **Shared objects.** `Shares`, `ShareRuns` and `SharedObjects`, on top of the memory manager:
  operations, what callers see of whole runs, and the code.
- **Lists, numbers, stamps.** `HoleList` and `HoleNodes` are the user heap's hole list,
  `IntrusiveList` the list macros, `Numbers` number printing and parsing, `LruStamp` the
  working-set time stamps. `Seqs` is the shared sequence vocabulary.

Where the code changes state in place, a class or an array method has the code's own
branches and loops and is proved against a function or relation on values; the theorems are
about those. `dafny verify dfyconfig.toml` checks everything.

Some promises do not hold of the code in full. There the code is modelled as it is, and a
lemma states exactly when the promise holds: `SchedulerRuns.WakeIsSafeIff`,
`SchedulerRuns.DrainIsSafeIff`, `SchedulerCrowds.CrowdBoundIsExact`,
`Semaphore.InitialInv`, `Semaphore.StuckIff`, `SleepLock.StuckIff`,
`BlockHeap.RefusedThoughFreeIff`, `Memory.MapReverseIff`, `KernelPages.KfreeIff`,
`PageFile.FreeEnvTheorem`, `HoleList.FiledTheorem`, `Shares.CreateInvIff`,
`Shares.CreateUniqueIff`, `Shares.GetTheorem`, `Shares.MemoryIff`,
`Numbers.PrintThenParse` and `Numbers.LongRoundTrip`.

Conventions:

- A queue is the sequence from `LIST_FIRST` to `LIST_LAST`; `enqueue` inserts at the head
  and `dequeue` takes the last element.
- Kernel panics are results (or, for a promotion to index -1, a `fault` flag).
- Running out of physical frames is a panic in the kernel, so the undo code behind
  `allocate_frame` in `kmalloc` and `create_shared_object` is never reached.
- Outcomes of code that is not modelled are parameters: `id` is what the two `kmalloc`
  calls of `alloc_share` come to, `spots` are the kernel pages that `kmalloc` returns for
  page tables that are missing.

## Model

| member | source | states |
|---|---|---|
| SchedulerRuns.BoundedWaiting | FOS_PROJECT_2025_TEMPLATE/kern/cpu/sched.c:324-394 | A ready process of priority p, with at most n <= T+2 competitors, is on the processor at some point of every admitted run from a safe state with p*(T+2)+n ticks in which nobody exits or re-prioritises it. |
| SchedulerRuns.DispatchedWithinBound | FOS_PROJECT_2025_TEMPLATE/kern/cpu/sched.c:324-394 | The sharper bound behind it: level, wait counter and queue position fix how many ticks are enough. |
| SchedulerRuns.TickPotential | FOS_PROJECT_2025_TEMPLATE/kern/cpu/sched.c:363-394 | Above level 0, each tick either dispatches a waiting process or lowers p*(T+2) minus its wait counter by exactly one. |
| SchedulerRuns.TickedProc | FOS_PROJECT_2025_TEMPLATE/kern/cpu/sched.c:363-394 | One tick dispatches a ready process or ages or promotes it exactly once, although queues change during the walk. |
| SchedulerRounds.RoundRobin | FOS_PROJECT_2025_TEMPLATE/kern/cpu/sched.c:324-394 | Round robin at the first level in use, whichever it is: while nobody there is due for promotion, a process waits through exactly as many ticks as there are processes ahead of it and runs after the next. |
| SchedulerRounds.CalmRun | FOS_PROJECT_2025_TEMPLATE/kern/cpu/sched.c:363-394 | Such runs of ticks exist: none of them reaches index -1. |
| SchedulerSteps.TickedRound | FOS_PROJECT_2025_TEMPLATE/kern/cpu/sched.c:324-394 | At that level one tick dispatches the process with nobody ahead and moves every other one up by one place. |
| SchedulerSteps.DispatchedIs | FOS_PROJECT_2025_TEMPLATE/kern/cpu/sched.c:347-356 | With nobody running, the last process of the first non-empty level gets the processor; that queue loses exactly it, no other queue changes, and with nobody ready nothing does. |
| SchedulerSteps.RunningGoesBack | FOS_PROJECT_2025_TEMPLATE/kern/cpu/sched.c:334-356 | A tick leaves the running process on the processor exactly if nobody else is ready at its priority or better after aging; otherwise it is the newest of its level with its counter cleared. |
| SchedulerSteps.IdleTick | FOS_PROJECT_2025_TEMPLATE/kern/cpu/sched.c:400-416 | With nobody running a tick ages and promotes and dispatches nobody. |
| SchedulerSteps.AgedOrder | FOS_PROJECT_2025_TEMPLATE/kern/cpu/sched.c:374-392 | Aging keeps the order of those that stay at a level and puts the promoted ones behind them, in the opposite of the order they had. |
| SchedulerRounds.StatusStep | FOS_PROJECT_2025_TEMPLATE/kern/cpu/sched_helpers.c:147-271 | A process changes its status only along the edges of its life cycle, each by its own event. |
| SchedulerRounds.ExitedForGood | FOS_PROJECT_2025_TEMPLATE/kern/cpu/sched_helpers.c:309-384 | Once in EXIT, a process stays there in every run. |
| SchedulerRounds.WokenInTurn | FOS_PROJECT_2025_TEMPLATE/kern/conc/channel.c:29-66 | Over any run without a wakeup of all, a sleeper stays asleep through as many wakeups of its channel as there are sleepers ahead of it, and is ready after the next. |
| SchedulerRounds.ChannelStep | FOS_PROJECT_2025_TEMPLATE/kern/conc/channel.c:29-93 | Only a sleep on a channel adds a sleeper to it, as the newest, and only its wakeups take any away: the oldest, or all. |
| SchedulerSteps.CreateIs | FOS_PROJECT_2025_TEMPLATE/kern/cpu/sched_helpers.c:258-271 | A new environment is the newest of the NEW queue; no other queue or process changes. |
| SchedulerSteps.RunIs | FOS_PROJECT_2025_TEMPLATE/kern/cpu/sched_helpers.c:276-304 | A process of the NEW queue becomes the newest of its level; otherwise nothing happens. |
| SchedulerSteps.SleepIs | FOS_PROJECT_2025_TEMPLATE/kern/conc/channel.c:38-41 | The running process leaves the processor and is the newest sleeper of the channel named, and of no other. |
| SchedulerSteps.WakeIs | FOS_PROJECT_2025_TEMPLATE/kern/conc/channel.c:60-65 | The oldest sleeper becomes the newest of its level, with its counter as it was. |
| SchedulerSteps.ExitIs | FOS_PROJECT_2025_TEMPLATE/kern/cpu/sched_helpers.c:309-384 | A ready or running process becomes the newest of EXIT; any other stays as it is. |
| SchedulerSteps.SetPriorityIs | FOS_PROJECT_2025_TEMPLATE/kern/cpu/sched_helpers.c:691-717 | A ready process becomes the newest of its new level with a cleared counter; of any other only the priority changes. |
| SchedulerSteps.ExitLevelsIs | FOS_PROJECT_2025_TEMPLATE/kern/cpu/sched_helpers.c:643-660 | The ready processes reach EXIT level by level, each level from its newest to its oldest. |
| SchedulerSteps.DrainedRest | FOS_PROJECT_2025_TEMPLATE/kern/cpu/sched_helpers.c:534-547 | Draining a queue leaves every queue alone but that one and the ready ones. |
| SchedulerRuns.NoRunPromotesFromTop | FOS_PROJECT_2025_TEMPLATE/kern/cpu/sched.c:324-394 | From a safe state, no admitted run with at most T+2 competing processes promotes out of level 0 (queue index -1); admitted means that nobody enters level 0 by a wakeup with a counter that is neither 0 nor small enough for those ahead of it. |
| SchedulerCrowds.CrowdBoundIsExact | FOS_PROJECT_2025_TEMPLATE/kern/cpu/sched.c:324-394 | While something runs, the clock can tick for ever without reaching index -1 if and only if level 0 is safe and at most T+2 processes compete, at whatever levels. |
| SchedulerCrowds.CrowdFaults | FOS_PROJECT_2025_TEMPLATE/kern/cpu/sched.c:363-394 | Any crowd of more than T+2, spread over any levels, reaches index -1 by ticks alone. |
| SchedulerCrowds.TicksAdmitted | FOS_PROJECT_2025_TEMPLATE/kern/cpu/sched.c:363-394 | Ticks alone are an admitted run: the competing processes stay the same. |
| SchedulerCrowds.EmptyIsSafe | FOS_PROJECT_2025_TEMPLATE/kern/cpu/sched.c:222-258 | The state after initialisation meets what the run theorems ask of their first state. |
| SchedulerCrowds.NoFaultFromStart | FOS_PROJECT_2025_TEMPLATE/kern/cpu/sched.c:222-394 | Hence no admitted run from initialisation reaches index -1. |
| SchedulerRuns.NextSafe | FOS_PROJECT_2025_TEMPLATE/kern/cpu/sched.c:324-394 | The inductive step: wait counter plus number of processes ahead stays within the threshold for everybody at level 0, for every event that is admitted (wakeups only with a counter of 0 or one that fits). |
| SchedulerRuns.UnsafeTicksFault | FOS_PROJECT_2025_TEMPLATE/kern/cpu/sched.c:363-394 | The converse for level 0: a process there whose counter plus position exceeds the threshold makes enough ticks in a row reach index -1. |
| SchedulerRuns.CrowdIsUnsafe | FOS_PROJECT_2025_TEMPLATE/kern/cpu/sched.c:363-394 | T+2 processes at level 0 besides the running one always reach index -1 within T+2 ticks. |
| SchedulerRuns.WakeIsSafeIff | FOS_PROJECT_2025_TEMPLATE/kern/cpu/sched_helpers.c:147-160 | Waking one process keeps level 0 safe exactly when the counter the sleeper kept still fits in front of the processes already there. |
| SchedulerRuns.DrainIsSafeIff | FOS_PROJECT_2025_TEMPLATE/kern/conc/channel.c:77-93 | Waking all, or running all new processes, keeps level 0 safe exactly when every counter fits behind those that end up ahead, whether they were there or come along. |
| SchedulerRuns.StaleWakeupFaults | FOS_PROJECT_2025_TEMPLATE/kern/cpu/sched_helpers.c:147-160 | A concrete two-process system in which a wakeup with an old counter and one tick reach index -1. |
| SchedulerRuns.NextKeepsHomes | FOS_PROJECT_2025_TEMPLATE/kern/cpu/sched_helpers.c:147-271 | Every operation keeps each process in exactly one of NEW, one ready queue, EXIT, one channel queue or the processor, with matching status and priority, and loses or invents nobody. |
| SchedulerRuns.DrainedOrder | FOS_PROJECT_2025_TEMPLATE/kern/cpu/sched_helpers.c:534-547 | Running all new processes, or waking all sleepers, appends them to each ready level in first-in first-out order behind its processes. |
| Scheduler.AgedKeepsHomes | FOS_PROJECT_2025_TEMPLATE/kern/cpu/sched.c:363-394 | Aging and promotion keep the partition, unless somebody is promoted out of level 0. |
| Scheduler.MovedKeepsHomes | FOS_PROJECT_2025_TEMPLATE/kern/cpu/sched_helpers.c:50-71 | Unlinking a process and inserting it at the head of its new queue keeps the partition and leaves every other queue alone. |
| Scheduler.FirstLevel | FOS_PROJECT_2025_TEMPLATE/kern/cpu/sched.c:347-356 | The level the selection loop picks: non-empty, with only empty levels before it. |
| ProcessQueues.Kernel.constructor | FOS_PROJECT_2025_TEMPLATE/kern/cpu/sched.c:222-258 | All queues start empty. |
| ProcessQueues.Kernel.Enqueue | FOS_PROJECT_2025_TEMPLATE/kern/cpu/sched_helpers.c:50-57 | Inserts at the head of one queue. |
| ProcessQueues.Kernel.Dequeue | FOS_PROJECT_2025_TEMPLATE/kern/cpu/sched_helpers.c:62-71 | Unlinks and returns the last element, or nothing for an empty queue. |
| ProcessQueues.Kernel.AgeReady | FOS_PROJECT_2025_TEMPLATE/kern/cpu/sched.c:363-394 | The two nested loops, with removal during the walk, do the whole aging pass at once, and fault exactly when somebody at level 0 is over the threshold. |
| ProcessQueues.Kernel.AgeLevel | FOS_PROJECT_2025_TEMPLATE/kern/cpu/sched.c:374-392 | The walk over one level handles each of its original elements once. |
| ProcessQueues.Kernel.AgeOne | FOS_PROJECT_2025_TEMPLATE/kern/cpu/sched.c:376-391 | One turn of the walk: promote or count one more tick. |
| ProcessQueues.Kernel.PutCurrentBack | FOS_PROJECT_2025_TEMPLATE/kern/cpu/sched.c:334-345 | The running process goes to the head of its queue with a cleared counter. |
| ProcessQueues.Kernel.Schedule | FOS_PROJECT_2025_TEMPLATE/kern/cpu/sched.c:324-356 | Put back, scan and dispatch choose the oldest process of the lowest non-empty level. |
| ProcessQueues.Kernel.ClockInterrupt | FOS_PROJECT_2025_TEMPLATE/kern/cpu/sched.c:363-416 | A clock interrupt is aging followed by rescheduling when something runs. |
| ProcessQueues.Kernel.RunEnv | FOS_PROJECT_2025_TEMPLATE/kern/cpu/sched_helpers.c:276-304 | Moves a process of the NEW queue to its ready queue; otherwise nothing happens. |
| ProcessQueues.Kernel.RunAll | FOS_PROJECT_2025_TEMPLATE/kern/cpu/sched_helpers.c:534-555 | The counted dequeue loop empties the NEW queue in order, and the call then panics unless the scheduler is stopped. |
| ProcessQueues.Kernel.SetPriority | FOS_PROJECT_2025_TEMPLATE/kern/cpu/sched_helpers.c:691-717 | A ready process is requeued with a cleared counter; any other only gets the priority; the call fails exactly for an unknown process or a ready one and a priority that is no queue index. |
| ProcessQueues.Kernel.ExitEnv | FOS_PROJECT_2025_TEMPLATE/kern/cpu/sched_helpers.c:309-384 | A ready or running process goes to EXIT; the call panics exactly for a process in the NEW queue. |
| ProcessQueues.Kernel.ExitAllReady | FOS_PROJECT_2025_TEMPLATE/kern/cpu/sched_helpers.c:643-660 | Both loops together move every ready process to EXIT, level by level. |
| ProcessQueues.Kernel.RemoveReady | FOS_PROJECT_2025_TEMPLATE/kern/cpu/sched_helpers.c:165-185 | Finds the queue that holds the process and unlinks it there. |
| ProcessQueues.Kernel.Sleep | FOS_PROJECT_2025_TEMPLATE/kern/conc/channel.c:38-40 | The running process is blocked and goes to the head of the channel queue. |
| ProcessQueues.Kernel.WakeupOne | FOS_PROJECT_2025_TEMPLATE/kern/conc/channel.c:60-65 | The oldest sleeper, if any, becomes ready. |
| ProcessQueues.Kernel.WakeupAll | FOS_PROJECT_2025_TEMPLATE/kern/conc/channel.c:84-90 | The dequeue loop makes every sleeper ready, oldest first. |
| Semaphore.SemaphoreTheorem | FOS_PROJECT_2025_TEMPLATE/kern/conc/ksemaphore.c:23-55 | For any interleaving: when the guard is free, sleepers plus the one still moving into the queue are exactly max(0, -count); returned waits never exceed initial value plus executed increments; wakeups follow the order of falling asleep. |
| Semaphore.ReturnsBounded | FOS_PROJECT_2025_TEMPLATE/kern/conc/ksemaphore.c:23-55 | As callers see it: in any run no more wait calls return than the initial value plus the signal calls made. |
| Semaphore.CallsCount | FOS_PROJECT_2025_TEMPLATE/kern/conc/ksemaphore.c:23-55 | From any value every wait call lowers the count once and every signal call raises it once, but for those still before that step, and no more processes are woken than signal calls made. |
| Semaphore.CallsEnd | FOS_PROJECT_2025_TEMPLATE/kern/conc/ksemaphore.c:23-55 | Every step brings the call of its process nearer its end and nobody else's further from it: a signal takes at most five steps of its own, a wait at most nine. |
| Semaphore.NextInv | FOS_PROJECT_2025_TEMPLATE/kern/conc/ksemaphore.c:23-55 | Every step of every caller keeps the balance of sleepers, movers, pending wakeups and count. |
| Semaphore.SignalWakesLongestSleeper | FOS_PROJECT_2025_TEMPLATE/kern/conc/ksemaphore.c:50-53 | A signal that leaves the count at or below zero wakes exactly one process, the one asleep longest. |
| Semaphore.DequeueFindsSleeper | FOS_PROJECT_2025_TEMPLATE/kern/conc/ksemaphore.c:51-53 | At the dequeue nobody is half way into the queue, so a signal that saw a debt finds a sleeper. |
| Semaphore.LocksUsedProperly | FOS_PROJECT_2025_TEMPLATE/kern/conc/kspinlock.c:28-90 | No process acquires a spin lock it holds or releases one it does not. |
| Semaphore.InitialInv | FOS_PROJECT_2025_TEMPLATE/kern/conc/ksemaphore.c:15-21 | The balance holds at the start exactly for a non-negative initial value. |
| Semaphore.NegativeValueOverruns | FOS_PROJECT_2025_TEMPLATE/kern/conc/ksemaphore.c:15-21 | From any negative value there is a run in which more waits return than value plus signals. |
| Semaphore.StuckIff | FOS_PROJECT_2025_TEMPLATE/kern/conc/channel.c:29-44 | From any value, in any reachable state, nobody can move exactly when the holder of the guard lock waits for the queue lock and a woken sleeper, which has the queue lock, for the guard lock. |
| Semaphore.CanGetStuck | FOS_PROJECT_2025_TEMPLATE/kern/conc/channel.c:29-44 | Such a state is reachable from every value. |
| SleepLock.SleepLockTheorem | FOS_PROJECT_2025_TEMPLATE/kern/conc/sleeplock.c:27-59 | For any interleaving: at most one holder and the stored id names it; with guard and lock free nobody is asleep on, or moving into, the channel. |
| SleepLock.CriticalSection | FOS_PROJECT_2025_TEMPLATE/kern/conc/sleeplock.c:27-59 | As callers see it: between its return from acquire and its call of release a process has the lock, so there is never more than one; and the lock is taken only by such a process, one about to return from acquire, or one whose release has not come into effect. |
| SleepLock.CallsEnd | FOS_PROJECT_2025_TEMPLATE/kern/conc/sleeplock.c:27-59 | Calls go forward with every step, but for two loops: acquire sleeps again while the lock is taken, and release wakes one sleeper after another. |
| SleepLock.NextInv | FOS_PROJECT_2025_TEMPLATE/kern/conc/sleeplock.c:27-59 | Every step keeps ownership, queue and the rule that nobody sleeps for a free lock without a wakeup on its way. |
| SleepLock.AcquireIsExclusive | FOS_PROJECT_2025_TEMPLATE/kern/conc/sleeplock.c:33-41 | A process that takes the lock finds no other holder. |
| SleepLock.ForeignReleaseIsNoOp | FOS_PROJECT_2025_TEMPLATE/kern/conc/sleeplock.c:52-58 | A release by a process that does not hold the lock changes nothing. |
| SleepLock.WakeupEmptiesQueue | FOS_PROJECT_2025_TEMPLATE/kern/conc/sleeplock.c:54-57 | When the holder's release is over, the channel queue is empty. |
| SleepLock.StuckIff | FOS_PROJECT_2025_TEMPLATE/kern/conc/channel.c:29-44 | In any reachable state nobody can move exactly when guard lock and queue lock are held crosswise in this way. |
| SleepLock.CanGetStuck | FOS_PROJECT_2025_TEMPLATE/kern/conc/channel.c:29-44 | Such a state is reachable. |
| Channel.DequeuedFifo | FOS_PROJECT_2025_TEMPLATE/kern/conc/channel.c:61-64 | Waking takes the process asleep longest and no other, and keeps the order of the rest. |
| Channel.EnrolledFifo | FOS_PROJECT_2025_TEMPLATE/kern/conc/channel.c:39-39 | Falling asleep adds one process, last in the order. |
| Channel.NoGap | FOS_PROJECT_2025_TEMPLATE/kern/conc/channel.c:36-44 | Until a process is in the queue it has the guard lock or the queue lock, and then the scheduler has the queue lock; a woken one goes on only when it is given the queue lock. |
| BlockHeap.AllocTheorem | FOS_PROJECT_2025_TEMPLATE/lib/dynamic_allocator.c:105-208 | An allocation keeps the heap consistent; a block it returns is new, aligned to a class at least as large as the request, and disturbs no live block; requests of 0 and above 2 KB are told apart. |
| BlockHeap.AllocClass | FOS_PROJECT_2025_TEMPLATE/lib/dynamic_allocator.c:133-198 | Where a block comes from, in every case: the head of the list of the least class that fits; if that is empty, the first free page, cut for that class; and if there is none, the head of the first list with a block above that class and below 2 KB. Nothing else changes. |
| BlockHeap.FirstBlock | FOS_PROJECT_2025_TEMPLATE/lib/dynamic_allocator.c:48-80 | The first block handed out is the first of the region. |
| BlockHeap.FreeTheorem | FOS_PROJECT_2025_TEMPLATE/lib/dynamic_allocator.c:213-276 | Freeing a live block keeps the heap consistent. |
| BlockHeap.FreedIs | FOS_PROJECT_2025_TEMPLATE/lib/dynamic_allocator.c:213-276 | A freed block goes to the tail of its class's list, or, exactly if no other block of its page is live, the whole page goes to the head of the free pages. |
| BlockHeap.FillsIff | FOS_PROJECT_2025_TEMPLATE/lib/dynamic_allocator.c:254-258 | The counter test holds exactly when the block freed is the last live one of its page. |
| BlockHeap.Tiling | FOS_PROJECT_2025_TEMPLATE/lib/dynamic_allocator.c:105-276 | Every byte of the region is in exactly one live block, one free-list block or a free page. |
| BlockHeap.LiveDisjoint | FOS_PROJECT_2025_TEMPLATE/lib/dynamic_allocator.c:105-208 | Live blocks never overlap. |
| BlockHeap.HeapTheorem | FOS_PROJECT_2025_TEMPLATE/lib/dynamic_allocator.c:48-276 | Over all runs from initialisation live blocks are disjoint, and with nothing live every page is free and every list empty. |
| BlockHeap.NothingLive | FOS_PROJECT_2025_TEMPLATE/lib/dynamic_allocator.c:250-269 | With nothing live every page is on the free-page list and every block list is empty. |
| BlockHeap.ReclaimLists | FOS_PROJECT_2025_TEMPLATE/lib/dynamic_allocator.c:254-268 | After a page is returned no free list holds a node inside it. |
| BlockHeap.CarveThenFree | FOS_PROJECT_2025_TEMPLATE/lib/dynamic_allocator.c:155-269 | Freeing right after an allocation that carved a page restores the heap exactly, list order included. |
| BlockHeap.BlocksIff | FOS_PROJECT_2025_TEMPLATE/lib/dynamic_allocator.c:184-208 | When exactly an allocation has to wait. |
| BlockHeap.RefusedThoughFreeIff | FOS_PROJECT_2025_TEMPLATE/lib/dynamic_allocator.c:187-197 | The fallback search stops before the 2 KB class: exactly then a request waits although a large enough block is free. |
| BlockHeap.RefusalExample | FOS_PROJECT_2025_TEMPLATE/lib/dynamic_allocator.c:187-197 | It happens on a one-page heap. |
| BlockHeap.ClassFor | FOS_PROJECT_2025_TEMPLATE/lib/dynamic_allocator.c:133-141 | The least size class that fits a request. |
| BlockAllocator.Allocator.constructor | FOS_PROJECT_2025_TEMPLATE/lib/dynamic_allocator.c:70-86 | The loops set up one free page per 4 KB and empty lists. |
| BlockAllocator.Allocator.GetBlockSize | FOS_PROJECT_2025_TEMPLATE/lib/dynamic_allocator.c:91-100 | The block size of the page that contains the address. |
| BlockAllocator.Allocator.FindClass | FOS_PROJECT_2025_TEMPLATE/lib/dynamic_allocator.c:133-141 | The doubling loop finds the least class that fits. |
| BlockAllocator.Allocator.CarvePage | FOS_PROJECT_2025_TEMPLATE/lib/dynamic_allocator.c:160-175 | The loop cuts the first free page into blocks, in address order, behind the list. |
| BlockAllocator.Allocator.AllocBlock | FOS_PROJECT_2025_TEMPLATE/lib/dynamic_allocator.c:105-208 | The code does what the specification says in all four cases. |
| BlockAllocator.Allocator.UnlinkPage | FOS_PROJECT_2025_TEMPLATE/lib/dynamic_allocator.c:255-262 | One walk unlinks exactly the blocks of the page, keeping the order of the rest. |
| BlockAllocator.Allocator.FreeBlock | FOS_PROJECT_2025_TEMPLATE/lib/dynamic_allocator.c:213-276 | The code does what the specification says, in both branches. |
| Memory.ReferenceTheorem | FOS_PROJECT_2025_TEMPLATE/kern/mem/memory_manager.c:148-223 | Over all runs, on any number of directories: a frame's count is the number of present entries that map it, it is free or just allocated exactly when that is 0, and no frame is lost. |
| Memory.Conservation | FOS_PROJECT_2025_TEMPLATE/kern/mem/memory_manager.c:148-213 | Free, just allocated and mapped frames add up to the pool. |
| Memory.MapKeepsAvailable | FOS_PROJECT_2025_TEMPLATE/kern/mem/memory_manager.c:409-429 | The entry after a mapping: the frame, the permissions, the present bit, the available bits of before and no other, except that an entry that maps the frame already is not written; no other entry changes. |
| Memory.UnmapKeepsAvailable | FOS_PROJECT_2025_TEMPLATE/kern/mem/memory_manager.c:475-495 | Unmapping leaves exactly the available bits, without a frame, and does nothing to an unmapped page; no other entry changes. |
| Memory.FreedFirst | FOS_PROJECT_2025_TEMPLATE/kern/mem/memory_manager.c:148-213 | The free list is a stack: a frame given back is the next one handed out. |
| Memory.ReverseTheorem | FOS_PROJECT_2025_TEMPLATE/kern/mem/kheap.c:370-452 | Over any run that maps no heap frame twice, the record in each frame and the page tables agree. |
| Memory.MapReverseIff | FOS_PROJECT_2025_TEMPLATE/kern/mem/memory_manager.c:356-430 | Mapping keeps that agreement exactly for clean mappings: a heap frame once, heap addresses through the kernel directory only. |
| Memory.LookupsInverse | FOS_PROJECT_2025_TEMPLATE/kern/mem/kheap.c:370-452 | The physical address is the mapped frame with the offset of the virtual one, its virtual address is the one looked up, and 0 stands exactly for what is unmapped or outside the heap. |
| Memory.LookupsInverseBack | FOS_PROJECT_2025_TEMPLATE/kern/mem/kheap.c:370-452 | The same from the physical side: the virtual page maps the frame and has the offset. |
| Memory.EnsureTable | FOS_PROJECT_2025_TEMPLATE/kern/mem/memory_manager.c:287-325 | Creating a missing page table keeps the reference counts right. |
| Memory.TableIs | FOS_PROJECT_2025_TEMPLATE/kern/mem/memory_manager.c:287-325 | A missing page table takes one kernel page, open to the kernel alone, and the first free frame, and serves exactly the 1024 pages around; an existing one takes nothing. |
| Memory.NewPageIs | FOS_PROJECT_2025_TEMPLATE/kern/mem/kheap.c:40-45 | A page allocated for the kernel takes the first free frame with exactly the permissions asked for. |
| MemoryManager.Manager.constructor | FOS_PROJECT_2025_TEMPLATE/kern/mem/memory_manager.c:56-122 | The loops put every frame but the first three, the I/O hole and the kernel image on the free list, once, and leave a consistent memory. |
| MemoryManager.Manager.Allocate | FOS_PROJECT_2025_TEMPLATE/kern/mem/memory_manager.c:148-187 | Takes the first free frame and clears it. |
| MemoryManager.Manager.Unmap | FOS_PROJECT_2025_TEMPLATE/kern/mem/memory_manager.c:475-495 | Clears the entry, lowers the count and frees at zero. |
| MemoryManager.Manager.MapAt | FOS_PROJECT_2025_TEMPLATE/kern/mem/memory_manager.c:409-430 | The three cases: same frame, another frame, nothing mapped. |
| MemoryManager.Manager.Map | FOS_PROJECT_2025_TEMPLATE/kern/mem/memory_manager.c:356-430 | The same with a page table that may have to be created first. |
| MemoryManager.Manager.NewPageAt | FOS_PROJECT_2025_TEMPLATE/kern/mem/paging_helpers.c:164-188 | Reports an existing mapping, or allocates a frame and maps it. |
| MemoryManager.Manager.VirtualAddress | FOS_PROJECT_2025_TEMPLATE/kern/mem/kheap.c:370-407 | The lookup by frame record, and that the other lookup inverts it. |
| MemoryManager.Manager.PhysicalAddress | FOS_PROJECT_2025_TEMPLATE/kern/mem/kheap.c:412-452 | The lookup through the page table. |
| KernelPages.KernelHeapTheorem | FOS_PROJECT_2025_TEMPLATE/kern/mem/kheap.c:136-359 | Over all runs live ranges are disjoint, their union is exactly the mapped pages, no hole reaches the break, and the reverse map is right. |
| KernelPages.KmallocTheorem | FOS_PROJECT_2025_TEMPLATE/kern/mem/kheap.c:102-285 | An allocation keeps the invariant; a successful one adds a disjoint range, mapped for the kernel alone and writeable; a failed one changes nothing. |
| KernelPages.KmallocIff | FOS_PROJECT_2025_TEMPLATE/kern/mem/kheap.c:118-285 | When a request of at least one page succeeds: exactly if the break could be raised by its pages, whatever holes there are, and there are frames for them. |
| KernelPages.PlacementRule | FOS_PROJECT_2025_TEMPLATE/kern/mem/kheap.c:150-201 | Read off the allocation relation, which the scan is proved to meet: first exact hole, else first largest hole that fits, else the break, which is raised only then. |
| KernelPages.KfreeTheorem | FOS_PROJECT_2025_TEMPLATE/kern/mem/kheap.c:321-359 | Freeing a range's first page gives back exactly that range and lowers the break past it. |
| KernelPages.KfreeIff | FOS_PROJECT_2025_TEMPLATE/kern/mem/kheap.c:332-342 | Freeing at a page of a live range keeps the layout exactly when it is the range's first page. |
| KernelPages.NoTrailingHole | FOS_PROJECT_2025_TEMPLATE/kern/mem/kheap.c:180-193 | The case of a hole that ends at the break never arises. |
| KernelPages.HugeRequest | FOS_PROJECT_2025_TEMPLATE/kern/mem/kheap.c:118-118 | Sizes above 0xFFFFF000 round up to zero pages in 32 bits: the call succeeds and maps nothing. |
| Holes.PlacesUnique | FOS_PROJECT_2025_TEMPLATE/kern/mem/kheap.c:150-201 | The placement rule determines one place. |
| Holes.ScanDecides | FOS_PROJECT_2025_TEMPLATE/kern/mem/kheap.c:195-201 | What the scan has recorded at its end is the place the rule asks for. |
| KernelHeap.CloseHole | FOS_PROJECT_2025_TEMPLATE/kern/mem/kheap.c:162-175 | When a run of unmapped pages ends, the recorded first exact hole and first largest hole become right for all holes that have ended so far. |
| KernelHeap.PageHeap.Search | FOS_PROJECT_2025_TEMPLATE/kern/mem/kheap.c:150-201 | One scan with its run counters finds the place of the rule. |
| KernelHeap.PageHeap.MapPages | FOS_PROJECT_2025_TEMPLATE/kern/mem/kheap.c:202-215 | The loop maps one fresh frame at each page of the range and touches no other entry. |
| KernelHeap.PageHeap.Kmalloc | FOS_PROJECT_2025_TEMPLATE/kern/mem/kheap.c:118-285 | The code is an allocation step and keeps the invariant. |
| KernelHeap.PageHeap.TrimBreak | FOS_PROJECT_2025_TEMPLATE/kern/mem/kheap.c:345-356 | The loop lowers the break past unmapped pages and no further. |
| KernelHeap.PageHeap.Kfree | FOS_PROJECT_2025_TEMPLATE/kern/mem/kheap.c:321-359 | For any address of the page area the code is a release step: it panics exactly for an unmapped page, and keeps the invariant for a range's first page. |
| KernelHeap.StartKernelHeap | FOS_PROJECT_2025_TEMPLATE/kern/mem/kheap.c:20-33 | From any amount of memory, initialisation leads to a kernel heap that meets its invariant. |
| PageFile.RefinementTheorem | FOS_PROJECT_2025_TEMPLATE/kern/disk/pagefile_manager.c:75-147 | Over any run the page file is a plain map from process pages to contents with a room: a new page is refused only when it is full, a freed process takes with it the room of its pages above user space, and free frames and pages held add up to the room. |
| PageFile.PageFileTheorem | FOS_PROJECT_2025_TEMPLATE/kern/disk/pagefile_manager.c:75-147 | On user pages no room is ever lost: free frames and pages held always add up to the same. |
| PageFile.ReadBack | FOS_PROJECT_2025_TEMPLATE/kern/disk/pagefile_manager.c:239-268 | Any page reads as the data last added for it, after any run that leaves it alone, frames lost or not. |
| PageFile.ReadAfter | FOS_PROJECT_2025_TEMPLATE/kern/disk/pagefile_manager.c:416-444 | A run that leaves a page alone leaves what is read there alone, present or not. |
| PageFile.LostFrames | FOS_PROJECT_2025_TEMPLATE/kern/disk/pagefile_manager.c:465-523 | The end of a process loses exactly one frame for each page it holds above user space. |
| PageFile.AddTheorem | FOS_PROJECT_2025_TEMPLATE/kern/disk/pagefile_manager.c:239-268 | An add changes that page only; it fails exactly for an absent page when no frame is free, and then changes no contents. |
| PageFile.RemoveTheorem | FOS_PROJECT_2025_TEMPLATE/kern/disk/pagefile_manager.c:446-463 | A removal takes exactly that page out. |
| PageFile.FramesStack | FOS_PROJECT_2025_TEMPLATE/kern/disk/pagefile_manager.c:93-147 | Free disk frames are a stack: a new page takes the first, and a removed one puts its frame back in front. |
| PageFile.FreedOrder | FOS_PROJECT_2025_TEMPLATE/kern/disk/pagefile_manager.c:465-523 | The end of a process gives its user frames back one by one in page order. |
| PageFile.FreeEnvTheorem | FOS_PROJECT_2025_TEMPLATE/kern/disk/pagefile_manager.c:465-523 | Ending a process empties its part and no other, and loses frames exactly when it has a page at or above USER_TOP. |
| PageFile.LeakExample | FOS_PROJECT_2025_TEMPLATE/kern/disk/pagefile_manager.c:469-469 | A page at USER_TOP and the end of its process: a frame is gone. |
| PageFile.Conservation | FOS_PROJECT_2025_TEMPLATE/kern/disk/pagefile_manager.c:75-147 | Each frame but 0 is free, holds one page of one process, or is lost. |
| PageFile.ReadIs | FOS_PROJECT_2025_TEMPLATE/kern/disk/pagefile_manager.c:416-444 | A read returns the contents, or an error exactly for a page that is not there. |
| PageFile.CounterTheorem | FOS_PROJECT_2025_TEMPLATE/kern/disk/pagefile_manager.c:583-619 | The counter is the number of user pages of the process in the page file. |
| PageFile.FreshInv | FOS_PROJECT_2025_TEMPLATE/kern/disk/pagefile_manager.c:75-90 | The initial page file is empty and consistent. |
| PageFileManager.Manager.constructor | FOS_PROJECT_2025_TEMPLATE/kern/disk/pagefile_manager.c:75-90 | The loop frees every frame but 0. |
| PageFileManager.Manager.AllocateDiskFrame | FOS_PROJECT_2025_TEMPLATE/kern/disk/pagefile_manager.c:112-133 | Takes the first free frame, if any. |
| PageFileManager.Manager.FreeDiskFrame | FOS_PROJECT_2025_TEMPLATE/kern/disk/pagefile_manager.c:138-147 | Pushes a frame on the free list; frame 0 is ignored. |
| PageFileManager.Manager.EnsureTable | FOS_PROJECT_2025_TEMPLATE/kern/disk/pagefile_manager.c:149-207 | Creates a missing directory and a blank table. |
| PageFileManager.Manager.AddEnvPage | FOS_PROJECT_2025_TEMPLATE/kern/disk/pagefile_manager.c:239-268 | The code does what the specification says, including the failure. |
| PageFileManager.Manager.ReadEnvPage | FOS_PROJECT_2025_TEMPLATE/kern/disk/pagefile_manager.c:416-444 | The three ways a page can be missing, or its data. |
| PageFileManager.Manager.RemoveEnvPage | FOS_PROJECT_2025_TEMPLATE/kern/disk/pagefile_manager.c:446-463 | The code does what the specification says. |
| PageFileManager.Manager.FreeProcess | FOS_PROJECT_2025_TEMPLATE/kern/disk/pagefile_manager.c:465-523 | Both loops free the frames of every user page once and drop the directory. |
| PageFileManager.Manager.CalculateAllocatedPages | FOS_PROJECT_2025_TEMPLATE/kern/disk/pagefile_manager.c:583-619 | Both loops count the user pages held. |
| PageFileManager.Manager.CalculateFreeFrames | FOS_PROJECT_2025_TEMPLATE/kern/disk/pagefile_manager.c:623-638 | All frames but 0, less pages held and lost frames. |
| HoleList.HoleListTheorem | FOS_PROJECT_2025_TEMPLATE/lib/uheap.c:95-223 | Through filing disjoint ranges, merging, exact and worst fit the list stays sorted and disjoint and covers exactly what was filed and not handed out. |
| HoleList.FiledTheorem | FOS_PROJECT_2025_TEMPLATE/lib/uheap.c:95-127 | Filing keeps the list exactly when the range is empty, its start is listed or it overlaps nothing, and then covers the range as well; an empty range or a listed start changes nothing, anything else is inserted in the order of starts. |
| HoleList.ExactTheorem | FOS_PROJECT_2025_TEMPLATE/lib/uheap.c:129-148 | Exact fit takes out the first hole of exactly the size, if and only if there is one. |
| HoleList.ExactRounds | FOS_PROJECT_2025_TEMPLATE/lib/uheap.c:129-148 | The address it returns is rounded down to a page, whatever the list. |
| HoleList.ExactAt | FOS_PROJECT_2025_TEMPLATE/lib/uheap.c:133-147 | It is the first such hole. |
| HoleList.WorstTheorem | FOS_PROJECT_2025_TEMPLATE/lib/uheap.c:150-188 | Worst fit hands out the front of the first largest hole, and leaves its rest in place, if and only if one fits. |
| HoleList.WorstAt | FOS_PROJECT_2025_TEMPLATE/lib/uheap.c:154-171 | It is the first of the largest holes that fit. |
| HoleList.MergeTheorem | FOS_PROJECT_2025_TEMPLATE/lib/uheap.c:189-223 | For any list, merging keeps the covered addresses and leaves no hole that ends where the next starts. |
| HoleList.MergeOk | FOS_PROJECT_2025_TEMPLATE/lib/uheap.c:189-223 | A sorted, disjoint list stays so, and afterwards no two holes touch. |
| HoleList.MergeIdempotent | FOS_PROJECT_2025_TEMPLATE/lib/uheap.c:189-223 | Merging twice is merging once, for holes in any order with distinct starts. |
| HoleList.SortTheorem | FOS_PROJECT_2025_TEMPLATE/lib/uheap.c:192-209 | The insertion sort sorts by start and keeps exactly the same holes. |
| HoleNodes.List.FileHole | FOS_PROJECT_2025_TEMPLATE/lib/uheap.c:95-127 | The linked list afterwards holds the filed sequence. |
| HoleNodes.List.ExactFit | FOS_PROJECT_2025_TEMPLATE/lib/uheap.c:129-148 | The search and unlinking do what exact fit says. |
| HoleNodes.List.FindWorst | FOS_PROJECT_2025_TEMPLATE/lib/uheap.c:150-171 | The search finds the chosen node and the one before it. |
| HoleNodes.List.WorstFit | FOS_PROJECT_2025_TEMPLATE/lib/uheap.c:150-188 | Shrinking the node in place, or unlinking it, does what worst fit says. |
| HoleNodes.List.Sort | FOS_PROJECT_2025_TEMPLATE/lib/uheap.c:192-209 | Relinking node by node leaves an acyclic list of the same nodes in the order of the sort. |
| HoleNodes.List.JoinTouching | FOS_PROJECT_2025_TEMPLATE/lib/uheap.c:211-222 | The coalescing loop does what merging says. |
| HoleNodes.List.Merge | FOS_PROJECT_2025_TEMPLATE/lib/uheap.c:189-223 | Sorting and coalescing in place do what merging says. |
| IntrusiveList.List.Init | FOS_PROJECT_2025_TEMPLATE/inc/queue.h:197-201 | The list is empty. |
| IntrusiveList.List.InsertAfter | FOS_PROJECT_2025_TEMPLATE/inc/queue.h:208-219 | first, last, next, prev and size agree with the sequence that has the element right behind the other. |
| IntrusiveList.List.InsertBefore | FOS_PROJECT_2025_TEMPLATE/inc/queue.h:226-240 | The same, right before the other. |
| IntrusiveList.List.InsertHead | FOS_PROJECT_2025_TEMPLATE/inc/queue.h:246-255 | The same, at the head. |
| IntrusiveList.List.InsertTail | FOS_PROJECT_2025_TEMPLATE/inc/queue.h:261-270 | The same, at the tail. |
| IntrusiveList.List.Remove | FOS_PROJECT_2025_TEMPLATE/inc/queue.h:276-289 | The same, without the element, whose own links are cleared. |
| IntrusiveList.List.ForEach | FOS_PROJECT_2025_TEMPLATE/inc/queue.h:183-186 | A body that removes the current element still sees every original element once, in order. |
| Shares.ShareTheorem | FOS_PROJECT_2025_TEMPLATE/kern/mem/shared_memory_manager.c:99-274 | Over all runs of create and get with short names and aligned targets that map nothing shared, mixed with any operations of the memory manager on other frames and pages: names are unique per owner, page i of every attachment is frame i of the object, the reference count is the number of attachments and the count of each frame, and user code may read every attachment, and write to one made by a get exactly if the object is writable. |
| ShareRuns.SharingTheorem | FOS_PROJECT_2025_TEMPLATE/kern/mem/shared_memory_manager.c:151-269 | Over all such runs from no objects: a create and a get that returned the same identity had the same owner and name, and each byte of the object has the same frame in both ranges; the creator may write to it, and the other exactly if the create was called with isWritable. |
| ShareRuns.GetHasCreate | FOS_PROJECT_2025_TEMPLATE/kern/mem/shared_memory_manager.c:225-269 | Every get that succeeds has an earlier create of that owner, name and identity. |
| ShareRuns.ResultsTheorem | FOS_PROJECT_2025_TEMPLATE/kern/mem/shared_memory_manager.c:151-269 | A create finds the name taken exactly if an earlier create of that owner and name has succeeded, and a get finds nothing exactly if none has. |
| Shares.CreateInvIff | FOS_PROJECT_2025_TEMPLATE/kern/mem/shared_memory_manager.c:151-215 | Creating keeps this exactly when the name is taken, there is no memory for the object, or the address is aligned and its range maps no frame of an object: an unaligned call leaves an object behind, an overlapping one breaks an attachment. |
| Shares.CreateResults | FOS_PROJECT_2025_TEMPLATE/kern/mem/shared_memory_manager.c:99-215 | Which of its results a create returns, and that it lists an object even when it refuses the address. |
| Shares.FramesForIs | FOS_PROJECT_2025_TEMPLATE/kern/mem/shared_memory_manager.c:121-137 | An object has the frames its size takes, none above 0xFFFFF000; the sizes up to 0x7FFFF000 and those above 0xFFFFF000 are the ones a get can attach. |
| Shares.CreateUniqueIff | FOS_PROJECT_2025_TEMPLATE/kern/mem/shared_memory_manager.c:42-68 | Names stay unique exactly when the name is taken, fits in 63 characters, its first 63 are free, or there is no memory for the object. |
| Shares.GetTheorem | FOS_PROJECT_2025_TEMPLATE/kern/mem/shared_memory_manager.c:225-269 | Attaching keeps the invariant exactly if the object is not found, or its size, rounded up to a page in 32 bits, is below 2^31 and the range maps no frame of an object; only a missing object is reported. |
| Shares.MemoryIff | FOS_PROJECT_2025_TEMPLATE/kern/mem/memory_manager.c:148-495 | Any other operation of the memory manager keeps the invariant exactly if it neither releases nor newly maps a frame of an object, and neither unmaps nor overwrites a page that maps one. |
| Shares.GetKeepsNames | FOS_PROJECT_2025_TEMPLATE/kern/mem/shared_memory_manager.c:225-269 | Attaching keeps names unique. |
| Shares.Find | FOS_PROJECT_2025_TEMPLATE/kern/mem/shared_memory_manager.c:49-59 | The first object of that owner with that name, if any. |
| SharedObjects.Strcmp | FOS_PROJECT_2025_TEMPLATE/lib/string.c:65-71 | Zero exactly for equal strings. |
| SharedObjects.CopyName | FOS_PROJECT_2025_TEMPLATE/lib/string.c:36-49 | What 63 copied characters and a terminator read as. |
| SharedObjects.Manager.FindShare | FOS_PROJECT_2025_TEMPLATE/kern/mem/shared_memory_manager.c:42-68 | The loop finds the first match. |
| SharedObjects.Manager.BuildPages | FOS_PROJECT_2025_TEMPLATE/kern/mem/shared_memory_manager.c:186-211 | Over any range, mapped or not, the loop takes a free frame for each page and maps it there and nowhere else; frames not mapped in the range stay where they are. |
| SharedObjects.Manager.Create | FOS_PROJECT_2025_TEMPLATE/kern/mem/shared_memory_manager.c:151-215 | The code is a create step, in all its outcomes and over any range; it keeps the invariant over one that maps nothing shared. |
| SharedObjects.Manager.AttachPages | FOS_PROJECT_2025_TEMPLATE/kern/mem/shared_memory_manager.c:249-266 | Over any range, mapped or not, that maps none of the object's frames, the loop maps each stored frame at its page and changes no other entry. |
| SharedObjects.Manager.Get | FOS_PROJECT_2025_TEMPLATE/kern/mem/shared_memory_manager.c:225-269 | The code is a get step in all its outcomes; it keeps the invariant for objects whose size, rounded up to a page in 32 bits, is below 2^31, over a range that maps nothing shared. |
| Numbers.LongRoundTrip | FOS_PROJECT_2025_TEMPLATE/lib/string.c:217-304 | Parsing in base 10 undoes ltostr for every 32-bit long but the minimum, for which it gives 0. |
| Numbers.PrintThenParse | FOS_PROJECT_2025_TEMPLATE/lib/printfmt.c:38-53 | For any base from 2 to 16, any width, spaces or zeros: parsing the printed number gives it back wrapped to 32 bits, so exactly below 2^31. |
| Numbers.PointerThenParse | FOS_PROJECT_2025_TEMPLATE/lib/string.c:233-234 | The same for hexadecimal digits behind 0x, in base 16 or 0. |
| Numbers.ParseAt | FOS_PROJECT_2025_TEMPLATE/lib/string.c:217-262 | What strtol reads of any text, given where its blanks, sign, prefix and digits end. |
| Numbers.StrtolReads | FOS_PROJECT_2025_TEMPLATE/lib/string.c:217-262 | The value and end position for any text, told from its blanks, sign, prefix, digits of either case and rest, in any base, octal and hexadecimal prefixes included. |
| Numbers.DigitsDenote | FOS_PROJECT_2025_TEMPLATE/lib/printfmt.c:38-53 | The printed digits denote the number. |
| Numbers.DigitsAreShortest | FOS_PROJECT_2025_TEMPLATE/lib/printfmt.c:38-53 | They are lower-case and have no leading zero. |
| Numbers.PrintedShape | FOS_PROJECT_2025_TEMPLATE/lib/printfmt.c:38-53 | What is printed is exactly as wide as asked for, or as the number if that is wider, with padding in front only. |
| Numbers.StrtolCode | FOS_PROJECT_2025_TEMPLATE/lib/string.c:217-262 | The loops return the parsed value, wrapped to 32 bits, and the end position. |
| Numbers.DigitsCode | FOS_PROJECT_2025_TEMPLATE/lib/string.c:241-257 | The digit loop, wrapping at every step, computes the wrapped value of the longest digit string. |
| Numbers.Console.PrintNum | FOS_PROJECT_2025_TEMPLATE/lib/printfmt.c:38-53 | The recursion prints the padding and then the digits, most significant first. |
| Numbers.Console.Pad | FOS_PROJECT_2025_TEMPLATE/lib/printfmt.c:46-48 | The padding loop. |
| Numbers.Ltostr | FOS_PROJECT_2025_TEMPLATE/lib/string.c:264-304 | The buffer holds sign, digits and terminator. |
| Numbers.ReverseInPlace | FOS_PROJECT_2025_TEMPLATE/lib/string.c:287-299 | The swapping loop reverses the range and touches nothing else. |
| Numbers.WriteBackwards | FOS_PROJECT_2025_TEMPLATE/lib/string.c:278-285 | The first loop writes the digits, least significant first. |
| LruStamp.BitIsUse | FOS_PROJECT_2025_TEMPLATE/kern/cpu/sched.c:440-444 | From stamp 0, bit 31-j is the use bit of j ticks ago. |
| LruStamp.StampOrder | FOS_PROJECT_2025_TEMPLATE/kern/cpu/sched.c:424-450 | Comparing stamps as numbers is comparing recency of use over the last 32 ticks. |
| LruStamp.UpdateExtendsHistory | FOS_PROJECT_2025_TEMPLATE/kern/cpu/sched.c:440-444 | One update puts the new tick in front of the history and stays within 32 bits. |
| LruStamp.UpdateTimeStamps | FOS_PROJECT_2025_TEMPLATE/kern/cpu/sched.c:424-450 | The loop updates each page whose table is in memory and clears its use bit; it skips the others. |

## Left out

- Waiting bound after a wakeup with an old counter: the bound is for runs whose sleepers enter level 0 with a counter that fits, because wakeups keep the counter; `SchedulerRuns.WakeIsSafeIff` and `SchedulerRuns.DrainIsSafeIff` say when it does.
- Wait counters are unbounded numbers: a 32-bit counter differs only for a starvation threshold of 2^32 - 1.
- The scheduler's events: runs in which `env_set_priority` gets a priority that is no queue index or an unknown id; `ProcessQueues.Kernel.SetPriority` says what that call does.
- ProcessQueues.Kernel.RunAll: does not model the scheduler's first dispatch, which is the call's last step.
- ProcessQueues.Kernel.RunEnv: does not model starting a stopped scheduler, after which the code releases `qlock` a second time (kern/cpu/sched_helpers.c:289-301).
- `sched_kill_env`, `sched_kill_all`, `sched_print_all`: the same list handling again, or printing.
- The outer loop of `fos_scheduler` that waits for blocked processes.
- Semaphore.LocksUsedProperly: names the process that holds a lock, where the code's test compares processors, because any number of interleaved callers is modelled.
- MLFQ and BSD schedulers, user semaphores, chunk copy, share and cut: their bodies only panic.
- `context_switch`, TLB and control-register operations, memory barriers, interrupt flags, clock programming, disk port I/O: no state the claims need; the disk is an array of pages and never fails.
- Liveness of the semaphore and the sleep lock: only safety is claimed, and when nobody can move.
- Spin locks: one atomic step each; the exchange loop inside `acquire_kspinlock` is not unrolled.
- Busy waiting in `alloc_block` with no block left is the result `WouldBlock`; `realloc_block` is not modelled.
- Frame counts are unbounded numbers, so a count past 65535 does not wrap.
- Page buffering: entries with the buffered bit are excluded, and `allocate_frame` does nothing for them in the code.
- KernelHeap.PageHeap.Kmalloc: does not model requests of up to 2 KB, which go to the block allocator, nor the record of a range's size in its first frame.
- KernelHeap.PageHeap.Kfree: does not model addresses below the page area; between block area and page area the code returns with the lock still held.
- The bounds of `allocatedSize`: it has one entry per heap page (kern/mem/kheap.c:10) and is indexed by absolute page number (kern/mem/kheap.c:220), so what the code overwrites is not modelled; `KernelHeap.PageHeap.sizes` is a map from page numbers.
- The kernel's own copy of the merge code and `krealloc`: nothing adds to that copy's list, and `krealloc` does not keep mapping and recorded size in step.
- MemoryManager.Manager.constructor: does not model the entries that map the kernel image and the frame table at boot, which no later operation touches; the kernel's page tables all exist from the start.
- PageFileManager.Manager.AddEnvPage: does not model a failing `kmalloc` for a directory or table, after which the code uses a null pointer.
- PageFileManager.Manager.EnsureTable: does not model that failure either.
- The end of a process that never had a page in the page file: `pf_free_env` then walks a null directory, so runs exclude it.
- `pf_update_env_page`, `pf_add_empty_env_page` and the table-file functions: they depend on live user mappings or repeat the add.
- Whole-run non-overlap of the user heap: freeing lowers the break and still files the hole above it, so only the hole list is claimed.
- 32-bit wrap-around of hole ends: all holes lie below `USER_HEAP_MAX`.
- `LIST_CONCAT`: it clears the second list's size before adding it. Nested `LIST_FOREACH` over one list is not modelled either: it shares one saved pointer.
- SharedObjects.Manager.Create: stores the frames in the object after the loop instead of one by one; the frames that `kmalloc` takes for the object and its frame array are steps of the memory manager before the call (`DoMemory` in `Shares`).
- SharedObjects.Manager.Get: does not model unaligned addresses, for which the frame records would be unaligned, nor attaching an object over its own pages, where a frame can be freed and then mapped.
- SharedObjects.Manager.AttachPages: does not model that overlap of an object with itself either.
- `delete_shared_object` and `free_share`: the last delete acquires a lock that is already held.
- Numbers.StrtolCode: signed overflow wraps, as the compiled code does; the C standard leaves it open.
- Working-set pages of one process are distinct, so each has its own use bit.
- Boot loader, console, keyboard, command prompt, user programs, page replacement policies.
