# Verified models of libctru's stateful kernels

libctru is the user-mode library for 3DS homebrew. Most of it passes requests on to system
services. These modules model the parts that keep tightly coupled state of their own, and prove
what callers rely on.

| files | what they model |
|---|---|
| `Machines.dfy` | transition systems, reachability, sums over threads |
| `LightLock.dfy`, `RecursiveLock.dfy`, `LightEvent.dfy`, `LightSemaphore.dfy` | the synchronization primitives as steps of any number of threads over a shared word and the kernel's address arbiter |
| `LightEventCalls.dfy` | what each call on an event achieves, from the step that makes it to its return |
| `Exclusive.dfy` | the load-exclusive/store-exclusive loops of those primitives, shown to act as the atomic updates the other files use |
| `FreeList.dfy`, `MemPool.dfy`, `PoolHistory.dfy` | the first-fit allocator: what each operation does to the list of free blocks, the doubly linked list that does it in place, and whole histories of one pool |
| `GspRings.dfy` | the command ring and the interrupt ring shared with the GSP module, the other side running between any two accesses |
| `GxQueue.dfy` | the batch scheduler with at most three commands in flight |
| `GpuCommands.dfy` | the encoding of register writes into command lists, and the buffer that holds them |
| `NdspChannel.dfy` | the wave-buffer queue of an NDSP channel: ids, the window of five, hardware slots, status reports |
| `HookList.dfy` | the list of APT hooks, kept by copying nodes |
| `RomFs.dfy`, `RomFsHash.dfy`, `RomFsPath.dfy`, `RomFsTree.dfy` | lookup by hash chain, the hash in closed form, the walk along a path, and what paths mean in the directory tree |
| `CaptureTiling.dfy`, `CaptureLayout.dfy` | the tiled screen capture and the memory block it goes to |
| `Polynomials.dfy`, `Crc16.dfy` | the CRC of ITU-T V.41 and the Mii checksum |
| `Arithmetic.dfy` | two facts about multiplication and division, powers of two |

`dafny verify dfyconfig.toml` checks everything.

How the pieces fit together:

* A thread of a synchronization primitive is a program counter. One step is one access to a
  shared word, one sleep or one signal. A successful exclusive loop is one step; the loops
  themselves are in `Exclusive.dfy`, where an arbitrary schedule of other threads' stores and of
  spurious failures runs between the accesses. `WAIT_IF_LESS_THAN` checks and sleeps in one step;
  a signal wakes as many sleepers as it says, any of them (libctru/include/3ds/svc.h:88-94).
* A structure that the source changes in place is a class. Each method is proved against a
  function on sequences, and the theorems are about those functions. A ghost sequence of nodes
  stands for each linked list.
* A call over a run goes from the step that makes it to the first later state in which the
  thread is back between calls. Other threads step in between, unless a lemma says that none do.
* Calls into the system and failures of malloc are parameters. So is GSP's side of the GX queue:
  it completes the commands it holds in any order and reports each by the event of its kind
  (`GxQueue.Report`, libctru/include/3ds/services/gspgpu.h:54-65).

Some results that a caller may not expect:

* `LightSemaphore.StrandingExactly`: threads that acquire different counts can be left asleep
  although the count would satisfy them, and that is the only case.
* `FreeList.EmptyRequest`: a request for zero bytes can leave two touching free blocks;
  `FreeList.EmptyRequestSplits` is one.
* `GpuCommands.CommandBuffer.AddInternal`: the bounds check leaves the pad word out of account,
  so that in an odd buffer the pad can land behind it (`GpuCommands.PadPassesEnd`). With an even
  buffer size and offset it cannot (`GpuCommands.EvenStaysInside`).
* `GxQueue.Scheduler.StopAndRestart`: a queue run after a stop hangs or finishes too early unless
  the commands of the stopped queue still in flight are as many as the queue counts as submitted
  and not completed. Running the same queue again after all its commands have completed hangs
  (`GxQueue.LostCompletions`).
* `GxQueue.Scheduler.Wait`: the header says that the timeout is in nanoseconds; the code adds it
  to a reading of the system tick, and so does the model.
* `HookList.Hooks.Hook`: registering a cookie that is registered already makes the list a circle.
* `RomFsPath.AfterDevice`: whatever stands before the first ':' of a path is dropped, also when
  the colon is part of a file name. A component that is followed by '/' is measured in bytes and
  in UTF-16 units, one at the end of a path only in units.
* `LightEvent.WaitReturnsByTaking`: Pulse wakes a waiter of a one-shot event, but the waiter
  finds the state cleared and goes back to sleep.

## Model

| member | source | states |
|---|---|---|
| LightLock.StepInv | libctru/source/synchronization.c:30-115 | every access to the word, sleep and wakeup, of any of any number of threads, keeps: the word is negative iff a thread holds the lock, its magnitude less one counts the registered waiters, and a sleeper on a free lock has a mover |
| LightLock.MutualExclusion | libctru/source/synchronization.c:37-115 | two threads never hold the lock at once, in any reachable state |
| LightLock.WordEncoding | libctru/source/synchronization.c:30-115 | the sign tells whether the lock is held, the magnitude less one counts waiters, 0 occurs only before first use, the retry path never reads 0, and the number of threads bounds the word |
| LightLock.TakenIfFree | libctru/source/synchronization.c:37-101 | a Lock or TryLock takes the lock at once exactly when nobody holds it; else TryLock is refused and Lock registers a waiter |
| LightLock.UnlockSignals | libctru/source/synchronization.c:103-115 | Unlock frees the lock at once, and signals exactly when there is a registered waiter |
| LightLock.NoLostWakeup | libctru/source/synchronization.c:57-115 | with the lock free and a registered waiter asleep, some thread is between its store and its signal, or a registered waiter is awake, whoever barges in |
| LightLock.StuckMeansDone | libctru/source/synchronization.c:37-115 | when no holder, unlocker or registered waiter can act, nobody is left anywhere in the lock |
| LightLock.StepMeasure | libctru/source/synchronization.c:37-115 | every step that is not a new call decreases a measure |
| LightLock.EveryWaiterGetsThrough | libctru/source/synchronization.c:37-115 | any run without new callers is finite, and when it cannot go on each registered waiter has held the lock on the way and all threads have left it |
| RecursiveLock.InnerRefines | libctru/source/synchronization.c:117-155 | every action of the recursive lock is a step of the light lock inside or leaves it alone |
| RecursiveLock.StepInv | libctru/source/synchronization.c:117-155 | tag, counter and positions stay in agreement with the inner lock through every interleaving |
| RecursiveLock.OwnTagMeansHolder | libctru/source/synchronization.c:124-146 | a thread that reads its own tag without a lock is the holder |
| RecursiveLock.HeldWhileNested | libctru/source/synchronization.c:124-155 | between calls a thread holds the inner lock iff its depth is positive, and then the counter is that depth |
| RecursiveLock.OneOwner | libctru/source/synchronization.c:124-155 | at most one thread is nested |
| RecursiveLock.ReleasedAtDepthZero | libctru/source/synchronization.c:148-155 | Unlock releases the inner lock exactly when the depth returns to zero |
| RecursiveLock.LockCounts | libctru/source/synchronization.c:124-133 | over any run, a Lock returns with its caller nested one deeper than at the call and holding the inner lock |
| RecursiveLock.TryLockCounts | libctru/source/synchronization.c:135-146 | over any run, a TryLock returns likewise, or its caller was not nested and found the inner lock held, and nothing has changed; the owner is never refused |
| RecursiveLock.UnlockCounts | libctru/source/synchronization.c:148-155 | over any run, an Unlock takes one level off, and the caller still holds the inner lock exactly when it was nested more than once |
| RecursiveLock.DepthIsOwn | libctru/source/synchronization.c:124-155 | steps of other threads leave a thread's depth alone |
| LightEvent.StepOneshot | libctru/source/synchronization.c:234-328 | what a one-shot event keeps at every step: wins never exceed stores, and a sleeper on a signaled event has an alert thread |
| LightEvent.StepSticky | libctru/source/synchronization.c:234-328 | what a sticky event keeps at every step, stores of Signal and Clear being made under the embedded lock |
| LightEvent.OneWinPerStore | libctru/source/synchronization.c:241-328 | there are never more successes than stores of SIGNALED_ONESHOT, and fewer while the event is signaled |
| LightEvent.SuccessTakes | libctru/source/synchronization.c:241-328 | on a one-shot event whatever lets a Wait or TryWait through takes the signaled state to cleared |
| LightEvent.OneSuccessPerStore | libctru/source/synchronization.c:241-328 | in any run some thread stores SIGNALED_ONESHOT between any two successes of Wait or TryWait, so each store lets at most one through |
| LightEvent.WaitReturnsByTaking | libctru/source/synchronization.c:277-328 | on a one-shot event Wait returns only by taking a store, so Pulse lets nobody through |
| LightEvent.OneshotNotForgotten | libctru/source/synchronization.c:287-328 | a signaled one-shot event with a sleeper has a signal pending or a waiter awake |
| LightEvent.StickyNotForgotten | libctru/source/synchronization.c:287-328 | a thread sleeps on a signaled sticky event only while the signaler, holding the embedded lock, is about to wake everybody |
| LightEvent.WokenBeforeNextStore | libctru/source/synchronization.c:262-301 | when Clear or Signal is about to store, nobody is owed a wakeup |
| LightEvent.WokenBeforeAnyClear | libctru/source/synchronization.c:262-328 | in any run, a thread asleep at a sticky signal's store has been woken before any later store by Clear or Signal |
| LightEventCalls.ClearClears | libctru/source/synchronization.c:262-285 | over any run, a Clear or a Pulse passes through a cleared state between its call and its return |
| LightEventCalls.SignalSignals | libctru/source/synchronization.c:287-301 | over any run, a Signal passes through a signaled state between its call and its return |
| LightEventCalls.TryWaitAlone | libctru/source/synchronization.c:241-308 | a TryWait without other threads stepping is let through exactly when it is called on a signaled event |
| LightEventCalls.ClearThenTryWait | libctru/source/synchronization.c:262-308 | right after a Clear, whatever the state before, a TryWait is not let through |
| LightEventCalls.SignalThenTryWait | libctru/source/synchronization.c:287-308 | right after a Signal, whatever the state before, a TryWait is let through |
| LightEventCalls.PulseWakes | libctru/source/synchronization.c:277-285 | a Pulse on an event that stays cleared: when it returns on a sticky one nobody is asleep, on a one-shot one its last step wakes one sleeper if there is any |
| LightEventCalls.SignaledByStore | libctru/source/synchronization.c:256-301 | a sticky event starts cleared and is signaled only once a Signal has stored |
| LightEventCalls.StickyWaitReturns | libctru/source/synchronization.c:310-328 | on a sticky event Wait returns only by reading a signaled state, or woken by another thread's signal to everybody |
| LightEventCalls.WaitAlone | libctru/source/synchronization.c:310-328 | a Wait without other threads stepping: on a signaled event it never sleeps and takes at most five steps, on a cleared one it never returns |
| LightSemaphore.StepInv | libctru/source/synchronization.c:365-426 | count bounds, acquired/released balance and the tally are kept by every step |
| LightSemaphore.StepAttended | libctru/source/synchronization.c:365-426 | with all acquires for k, sleepers stay attended at every step |
| LightSemaphore.CountAndTally | libctru/source/synchronization.c:358-426 | the count stays in [0, max], acquired never exceeds initial plus released, and the 16-bit tally is the number of threads about to sleep, asleep or just woken |
| LightSemaphore.NothingIsLost | libctru/source/synchronization.c:365-426 | in any run that has released no more than the maximum has room for, acquired plus what is there is exactly initial plus released |
| LightSemaphore.AcquireTakes | libctru/source/synchronization.c:365-392 | over any run, an Acquire returns by a step that finds at least its count and takes exactly that |
| LightSemaphore.AcquireAlone | libctru/source/synchronization.c:365-392 | without other threads stepping, an Acquire of no more than there is takes it in one step, and one of more takes nothing and is asleep after three |
| LightSemaphore.TryAcquireTakes | libctru/source/synchronization.c:394-409 | a TryAcquire takes exactly its count if that much is there, else nothing |
| LightSemaphore.ReleaseAdds | libctru/source/synchronization.c:411-422 | a Release brings the count to the lesser of the sum and the maximum |
| LightSemaphore.ReleaseSignals | libctru/source/synchronization.c:411-426 | over any run, a Release signals if it was called on an empty semaphore or the tally was positive throughout, and does not if neither was so at any time |
| LightSemaphore.SignalWakes | libctru/source/synchronization.c:424-425 | a signal wakes as many sleepers as its count, or all of them |
| LightSemaphore.Wrap16Means | libctru/source/synchronization.c:379-387 | a 16-bit store keeps the number up to a multiple of 65536 |
| LightSemaphore.NoLostWakeup | libctru/source/synchronization.c:365-426 | with all acquires for k and someone asleep, what is there is less than k for each signal to come and each awake acquirer and one more; for k = 1 it is at most the counts in flight plus the awake acquirers |
| LightSemaphore.UnmixedNeverStrands | libctru/source/synchronization.c:365-426 | with a single count in use nobody sleeps unattended on a count that would satisfy it |
| LightSemaphore.StrandingExactly | libctru/source/synchronization.c:365-426 | a wakeup can be lost if and only if two different counts are in use, the smaller of which the semaphore can hold |
| Exclusive.LockEnter | libctru/source/synchronization.c:42-55 | the first loop of Lock, preempted arbitrarily, is one atomic update of the word |
| Exclusive.LockRetry | libctru/source/synchronization.c:57-82 | the second loop is one atomic update, or leaves the word alone having seen it held |
| Exclusive.TryLock | libctru/source/synchronization.c:85-101 | TryLock is one atomic update, or leaves the word alone having seen it held |
| Exclusive.Unlock | libctru/source/synchronization.c:103-115 | Unlock is one atomic update, and signals exactly when the word it stored shows waiters |
| Exclusive.TryReset | libctru/source/synchronization.c:241-254 | TryReset is one atomic update, or leaves the state alone having seen no one-shot signal |
| Exclusive.TakeCount | libctru/source/synchronization.c:365-409 | taking from the count is one atomic subtraction, or none having seen too few |
| Exclusive.ReleaseCount | libctru/source/synchronization.c:411-426 | Release is one atomic addition up to the maximum |
| Exclusive.ChangeTally | libctru/source/synchronization.c:379-387 | the two 16-bit loops around the sleep are each one atomic addition, wrapped to 16 bits |
| Exclusive.SetWord | libctru/source/synchronization.c:234-239 | storing a state, as LightLock_Init does too, is one atomic store |
| FreeList.WasteIsLeast | libctru/source/allocator/mem_pool.cpp:57-61 | the skipped bytes lead to the first aligned address at or after the block's base |
| FreeList.RoundedIsNext | libctru/source/allocator/mem_pool.cpp:43-54 | the padded size is the next multiple of the alignment |
| FreeList.Canonical | libctru/source/allocator/mem_pool.cpp:97-137 | two well-formed free lists with the same free addresses are the same list |
| FreeList.FirstFit | libctru/source/allocator/mem_pool.cpp:56-92 | the chunk lies at the lowest aligned free address with room, and there is none when the search fails |
| FreeList.TakeEffect | libctru/source/allocator/mem_pool.cpp:56-92 | cutting keeps the list well formed and moves exactly the chunk's addresses out of the free set, with or without a node for the tail |
| FreeList.CoalesceEffect | libctru/source/allocator/mem_pool.cpp:19-31 | absorbing what follows keeps the free addresses and leaves no touching blocks |
| FreeList.DeallocateEffect | libctru/source/allocator/mem_pool.cpp:97-137 | freeing keeps the list well formed and adds exactly the chunk's addresses, unless it touches no block and no node can be had |
| FreeList.AllocateThenDeallocate | libctru/source/allocator/mem_pool.cpp:33-137 | Deallocate right after Allocate gives back the very same list |
| FreeList.GuardIsExact | libctru/source/allocator/mem_pool.cpp:43-54 | the overflow guard refuses exactly the sizes whose rounding does not fit 32 bits |
| FreeList.AllocateExact | libctru/source/allocator/mem_pool.cpp:33-95 | Allocate yields the lowest aligned address at which the rounded size is free, and fails only for a bad shift, an overflowing size or when there is none; the chunk has exactly the rounded size, unless no node can be had and there is free memory on both sides, all of which behind it then goes with it |
| FreeList.EmptyRequest | libctru/source/allocator/mem_pool.cpp:33-95 | a request for zero bytes leaves two touching blocks exactly when the shift is valid, the search ends inside a block past its base, and a node can be had; otherwise the list stays well formed |
| FreeList.EmptyRequestSplits | libctru/source/allocator/mem_pool.cpp:33-95 | such a request: zero bytes aligned to 16 from a block of 24 bytes at 8 |
| MemPool.Pool.AddBlock | libctru/source/allocator/mem_pool.h:44-50 | the block goes to the back of the doubly linked list |
| MemPool.Pool.DelBlock | libctru/source/allocator/mem_pool.h:52-59 | the block leaves the list, the others keep their order and links |
| MemPool.Pool.InsertBefore | libctru/source/allocator/mem_pool.h:61-68 | the new block stands directly before the given one |
| MemPool.Pool.InsertAfter | libctru/source/allocator/mem_pool.h:70-77 | the new block stands directly after the given one |
| MemPool.Pool.GetFreeSpace | libctru/source/allocator/mem_pool.cpp:148-154 | the sum of the block sizes |
| MemPool.Pool.Allocate | libctru/source/allocator/mem_pool.cpp:33-95 | the linked list and the chunk change as the specification function says |
| MemPool.Pool.TakeSpace | libctru/source/allocator/mem_pool.cpp:56-94 | the search loop finds and cuts the first suitable block |
| MemPool.Pool.CutBlock | libctru/source/allocator/mem_pool.cpp:67-91 | the found block is resized, split or removed in place |
| MemPool.Pool.CoalesceRight | libctru/source/allocator/mem_pool.cpp:19-31 | the block absorbs all that follow on without a gap |
| MemPool.Pool.Deallocate | libctru/source/allocator/mem_pool.cpp:97-137 | the linked list changes as the specification function says |
| MemPool.Pool.MergeAt | libctru/source/allocator/mem_pool.cpp:104-128 | where the walk ends the chunk is merged to either side, both sides, or inserted |
| PoolHistory.StepAccounted | libctru/source/allocator/mem_pool.cpp:33-137 | free blocks and chunks given out go on splitting the region between them |
| PoolHistory.RunAccounted | libctru/source/allocator/mem_pool.cpp:33-137 | after any run, free bytes plus bytes given out are the region's size and every address is in exactly one of them |
| PoolHistory.AllFreedRestores | libctru/source/allocator/mem_pool.cpp:97-137 | freeing everything, in any order, restores the one original block |
| PoolHistory.NothingLost | libctru/source/allocator/mem_pool.cpp:97-137 | memory is lost only when Deallocate gets no list node |
| GspRings.TailIsFree | libctru/source/services/gspgpu.c:404-433 | the slot at (index + total) mod 15 holds no waiting command |
| GspRings.Appended | libctru/source/services/gspgpu.c:414-420 | with one more command counted, the queue read from the slots is the old one and the tail slot |
| GspRings.CommandRing.Pop | libctru/source/services/gspgpu.c:404-433 | the assumed consumer step: the oldest command leaves and the tail stays where it is |
| GspRings.CommandRing.CopyCommand | libctru/source/services/gspgpu.c:404-433 | copying into the tail slot disturbs no waiting command, with pops between any two words |
| GspRings.CommandRing.TryStore | libctru/source/services/gspgpu.c:404-433 | a store that succeeds publishes the copied command behind those waiting |
| GspRings.CommandRing.Submit | libctru/source/services/gspgpu.c:404-433 | the command goes to the back of a FIFO of at most 15 in one instant; -2 exactly when full; the trigger is due exactly when the queue went from empty to one |
| GspRings.Dequeued | libctru/source/services/gspgpu.c:322-357 | advancing the read position drops the oldest interrupt |
| GspRings.InterruptRing.PopInterrupt | libctru/source/services/gspgpu.c:322-357 | takes the oldest interrupt of the 0x34-slot ring in one instant and clears the error, or reports that none is waiting |
| GspRings.InterruptRing.TryTake | libctru/source/services/gspgpu.c:338-354 | a store-exclusive that succeeds takes exactly the interrupt that was read |
| GxQueue.Scheduler.DoCommands | libctru/source/gpu/gxqueue.c:15-25 | submits the next entries in order, up to three in flight |
| GxQueue.Scheduler.Interrupt | libctru/source/gpu/gxqueue.c:27-51 | PSC0, PPF, P3D and DMA count one completion of the running queue, refill up to three, and end the queue exactly when all is done or a stop was asked; PSC1, VBlank0 and VBlank1 leave everything alone |
| GxQueue.Scheduler.Complete | libctru/source/gpu/gxqueue.c:27-51 | the assumed GSP step: whichever command in flight completes, of whatever kind, its own event counts it |
| GxQueue.Scheduler.Clear | libctru/source/gpu/gxqueue.c:53-60 | panics exactly for the running queue, else empties the queue |
| GxQueue.Scheduler.Add | libctru/source/gpu/gxqueue.c:62-75 | panics exactly when full, else appends, and submits at once when the queue runs with room |
| GxQueue.Scheduler.Run | libctru/source/gpu/gxqueue.c:77-91 | starts a queue with the surplus that what GSP still holds and what the queue counts as submitted make; a running queue is left alone |
| GxQueue.Scheduler.Stop | libctru/source/gpu/gxqueue.c:93-105 | a running queue becomes a stopping one, another is dropped |
| GxQueue.Scheduler.Wait | libctru/source/gpu/gxqueue.c:107-119 | returns true after the first turn by which as many completions have arrived as entries were left, everything then submitted once, in order, and completed; returns false at the first clock reading past the deadline before that, and never with a negative timeout |
| GxQueue.TimeUpMeans | libctru/source/gpu/gxqueue.c:109-114 | the signed difference of the clock to the deadline says whether the timeout has passed, also when the clock wraps |
| GxQueue.Scheduler.Drain | libctru/source/gpu/gxqueue.c:27-51 | whatever is in flight, completing in any order, each with its own event: with a negative surplus a queue runs for ever; otherwise it finishes with the surplus still in flight |
| GxQueue.Scheduler.StopAndRestart | libctru/source/gpu/gxqueue.c:27-105 | Stop with f commands in flight, c completions, then Run: the queue hangs exactly when f - c is less than what it counts as submitted and not completed, and else finishes with the difference in flight |
| GxQueue.LostCompletions | libctru/source/gpu/gxqueue.c:77-119 | three entries run, stopped, completed and run again without clearing: running for ever with nothing in flight |
| GxQueue.BorrowedCompletions | libctru/source/gpu/gxqueue.c:77-119 | another queue run after one of three completions: finished with two commands in flight |
| NdspChannel.SlotsDistinct | libctru/source/ndsp/ndsp-channel.c:440-459 | outstanding buffers behind the head have pairwise distinct hardware slots |
| NdspChannel.FinishedMeans | libctru/source/ndsp/ndsp-channel.c:507-524 | the buffers taken off are those before the one playing if it is outstanding, else all; with none playing, those up to the last one reported, or one |
| NdspChannel.ConsecutiveAppend | libctru/source/ndsp/ndsp-channel.c:211-224 | ids stay nonzero and cyclically consecutive when one is given out |
| NdspChannel.IdsCycle | libctru/source/ndsp/ndsp-channel.c:211-224 | the queued ids count up through 1..65535, over and over, from the first on |
| NdspChannel.Channel.WaveBufClear | libctru/source/ndsp/ndsp-channel.c:178-195 | every queued buffer becomes done, the queue is empty, and ids and slots start anew |
| NdspChannel.Channel.WaveBufAdd | libctru/source/ndsp/ndsp-channel.c:197-226 | a buffer already queued or playing, or without samples, is left alone; another goes to the back with the next id |
| NdspChannel.Channel.Update | libctru/source/ndsp/ndsp-channel.c:400-462 | buffers are handed to the DSP until five are outstanding or none are left |
| NdspChannel.Channel.SetUpFirst | libctru/source/ndsp/ndsp-channel.c:417-439 | the first buffer goes to the main registers and is marked playing |
| NdspChannel.Channel.QueueNext | libctru/source/ndsp/ndsp-channel.c:440-459 | a later buffer goes to the next of four slots, overwriting no outstanding one |
| NdspChannel.Channel.Examine | libctru/source/ndsp/ndsp-channel.c:507-524 | one turn: the front buffer is the current one and stays, or it is taken off, perhaps as the last |
| NdspChannel.Channel.Collect | libctru/source/ndsp/ndsp-channel.c:507-524 | the loop takes the finished buffers off the front, links them backwards and marks the one it stops at as playing |
| NdspChannel.Channel.MarkDone | libctru/source/ndsp/ndsp-channel.c:532-533 | the buffers taken off, and no others, are marked done |
| NdspChannel.Channel.ReadState | libctru/source/ndsp/ndsp-channel.c:486-540 | whatever ids the DSP reports, a prefix of the queue becomes done, the rest keeps its order, ids and slots, the buffer being played is marked so, and done buffers stay a prefix of those added |
| HookList.Hooks.CallHook | libctru/source/services/apt.c:99-104 | calls exactly the registered callbacks, newest first |
| HookList.Calls | libctru/source/services/apt.c:99-104 | one call for each registration, with its own callback and parameter |
| HookList.Hooks.Hook | libctru/source/services/apt.c:858-867 | a registration is pushed, although the old head is copied into the caller's cookie; with a cookie registered already the chain becomes a circle of callbacks |
| HookList.Hooks.Unhook | libctru/source/services/apt.c:869-880 | exactly the registration made with the cookie is removed |
| HookList.Hooks.CopyNext | libctru/source/services/apt.c:869-880 | copying the next node over this one drops exactly the registration that lay between |
| HookList.NeverEnds | libctru/source/services/apt.c:99-104 | on such a circle there is another callback to call however far one goes |
| HookList.RunIsLive | libctru/source/services/apt.c:858-880 | after any history the hooks are those registered and not taken back since, newest first |
| RomFs.CalcHash | libctru/source/romfs_dev.c:358-368 | the loop computes the bucket of a name below a parent |
| RomFsHash.HashClosed | libctru/source/romfs_dev.c:358-368 | on numbers, for a name of n units: the exclusive-or of the seed turned right by 5n and of unit i turned right by 5(n - 1 - i), for every i |
| RomFsHash.ShiftsTurn | libctru/source/romfs_dev.c:364 | the two shifts and the or turn the number right by five, turning by k being x / 2^r + (x mod 2^r) * 2^(32 - r) for r = k mod 32 |
| RomFsHash.TurnFiveMore | libctru/source/romfs_dev.c:362-366 | turning by k and then by five is turning by k + 5, also across the end of the word |
| RomFsHash.Buckets | libctru/source/romfs_dev.c:358-368 | an empty name falls in the bucket (parent xor 123456789) mod total, and the name "a" in the root, of 7, in bucket 5 |
| RomFs.ChildMatches | libctru/source/romfs_dev.c:370-402 | in a well-formed table scanning a directory's children finds an entry iff it is the one with that parent and name |
| RomFs.FollowChain | libctru/source/romfs_dev.c:376-384 | following one chain ends, and finds a matching entry iff the chain has one |
| RomFs.Search | libctru/source/romfs_dev.c:370-402 | searchForDir and searchForFile return what a scan of the parent's sibling list returns |
| RomFsPath.JoinComponents | libctru/source/romfs_dev.c:420-444 | the components of a path, joined, are the path |
| RomFsPath.ComponentsJoin | libctru/source/romfs_dev.c:420-444 | cutting joined components gives them back |
| RomFsPath.Mount.Enter | libctru/source/romfs_dev.c:446-461 | one component stays, goes up, or goes to the child of that name, with the source's errors |
| RomFsPath.Mount.Turn | libctru/source/romfs_dev.c:420-462 | one turn of the loop cuts off a component, checks it and enters it, or ends the walk |
| RomFsPath.Mount.Walk | libctru/source/romfs_dev.c:420-464 | the loop is the fold of the steps of the components, empty and overlong ones included |
| RomFsPath.Mount.NavigateToDir | libctru/source/romfs_dev.c:404-465 | the device is cut off, the walk starts at the root or the current directory, and the last component is left over for files |
| RomFsPath.Mount.ChangeDir | libctru/source/romfs_dev.c:706-716 | the current directory changes exactly on success |
| RomFsPath.Mount.Open | libctru/source/romfs_dev.c:531-568 | opening finds the file of the last name in the directory before it, with the source's errors for the path, the name and the flags |
| RomFsPath.OpensExactly | libctru/source/romfs_dev.c:531-568 | a file is opened if and only if the path means it, it is for reading only and a new file is not insisted on |
| RomFsPath.Mount.LookUp | libctru/source/romfs_dev.c:544-568 | the name is converted, checked and searched for among the files |
| RomFsTree.PathConcat | libctru/source/romfs_dev.c:404-465 | walking p/q is walking p/ and from there q |
| RomFsTree.ChangeThenResolve | libctru/source/romfs_dev.c:404-465 | changing to p/ and resolving q there is resolving p/q |
| RomFsTree.UpUndoesDown | libctru/source/romfs_dev.c:446-461 | a child and then ".." is where one was; the root's parent is the root |
| RomFsTree.DotDotCancels | libctru/source/romfs_dev.c:404-465 | in a path a component that leads to a child is cancelled by the ".." after it |
| RomFsTree.DotStays | libctru/source/romfs_dev.c:443-445 | in a path a component "." changes nothing |
| RomFsTree.DeviceCutOff | libctru/source/romfs_dev.c:408-409 | what follows the first ':' is what counts, whatever the device is called, and a path without ':' counts whole |
| RomFsTree.DevicePath | libctru/source/romfs_dev.c:404-418 | behind a device a path starts at the root if it starts with '/', else at the current directory; nothing behind it, or an empty path, is EILSEQ |
| RomFsTree.FullPathFinds | libctru/source/romfs_dev.c:404-465 | a full path, behind any device and from any current directory, leads to a directory if and only if its names are those met going up from it to the root; without a device too, if no name holds a ':' |
| RomFsTree.FullPathFindsFile | libctru/source/romfs_dev.c:531-568 | the same for files |
| RomFsTree.StepErrors | libctru/source/romfs_dev.c:443-461 | a component fails with EILSEQ, ENAMETOOLONG or ENOENT exactly when it does not convert, converts to too many units, or no child has that name |
| RomFsTree.SlashErrors | libctru/source/romfs_dev.c:424-434 | in a path an empty component before a '/' is EILSEQ and one of more bytes than the limit ENAMETOOLONG |
| RomFsTree.FileErrors | libctru/source/romfs_dev.c:544-568 | a file name fails with EILSEQ, ENAMETOOLONG or ENOENT exactly when it does not convert or is empty, has as many units as the limit or more, or no file in the directory has that name |
| RomFsTree.OpenErrors | libctru/source/romfs_dev.c:531-578 | writing and creating give EROFS, insisting on a new file where there is one EEXIST, a missing file or directory ENOENT, and a malformed path its own error |
| GpuCommands.HeaderIsFit | libctru/include/3ds/gpu/gpu.h:10-11 | the header macro leaves the count field empty and keeps its three parts |
| GpuCommands.HeaderWord | libctru/include/3ds/gpu/gpu.h:10-11 | the header in numbers: bit 31, the low four bits of the mask from bit 16 on, the low ten of the register |
| GpuCommands.OrBits | libctru/source/gpu/gpu.c:31 | a bit of the or is set exactly when it is set on either side |
| GpuCommands.PacketWords | libctru/source/gpu/gpu.c:25-45 | a packet word by word: the first value, the header with the number of further values from bit 20 on, the further values, and a zero when their number is odd |
| GpuCommands.LongCommand | libctru/source/gpu/gpu.c:47-59 | more than 256 values start with a packet of 256, and a header for consecutive registers goes on 256 further |
| GpuCommands.DecodeConcat | libctru/source/gpu/gpu.c:25-59 | a list followed by another means the writes of the one and then of the other |
| GpuCommands.RoundTrip | libctru/source/gpu/gpu.c:25-59 | decoding the words of a command of any length gives exactly the requested writes, to one register or to consecutive ones, across the splits |
| GpuCommands.PadPassesEnd | libctru/source/gpu/gpu.c:25-45 | two values in an odd buffer of three words pass the check, and the pad overwrites the word behind the buffer |
| GpuCommands.EvenStaysInside | libctru/source/gpu/gpu.c:25-59 | with an even offset and size a command that passes the check ends inside the buffer, pads included |
| GpuCommands.CommandBuffer.AddInternal | libctru/source/gpu/gpu.c:25-45 | panics exactly when the check fails, else writes one packet at the offset and nothing else; the pad lands behind the buffer exactly when there is one and no word was to spare |
| GpuCommands.CommandBuffer.Add | libctru/source/gpu/gpu.c:47-59 | panics exactly when the words without the last pad do not fit, else adds the whole encoding at the offset and nothing else |
| GpuCommands.CommandBuffer.AddWrite | libctru/include/3ds/gpu/gpu.h:102-111 | adds the two words of one register write |
| GpuCommands.CommandBuffer.Split | libctru/source/gpu/gpu.c:61-73 | hands out the list with its end and moves the buffer past it |
| GpuCommands.ClosedIsAligned | libctru/source/gpu/gpu.c:61-73 | the closed list is a multiple of four words exactly when the list had an even number, and then the shortest such with room for the end |
| GpuCommands.AddedDecodes | libctru/source/gpu/gpu.c:47-59 | a command added to a list adds its writes to what the list means |
| GpuCommands.ClosedDecodes | libctru/source/gpu/gpu.c:61-73 | closing a list adds to what it means one write of 0x12345678 to register 0x10 when its length is 2 mod 4, else two, and nothing more |
| CaptureTiling.MortonBack | libctru/source/services/apt.c:724-727 | the place of a pixel in its tile determines the pixel |
| CaptureTiling.Spread | libctru/source/services/apt.c:707-727 | the place of a pixel in its tile interleaves the bits of its coordinates, the lowest of x first |
| CaptureTiling.ConvertTile | libctru/source/services/apt.c:719-731 | all 64 pixels of a tile land at their places and nothing else changes |
| CaptureTiling.ConvertPixel | libctru/source/services/apt.c:722-730 | the bytes of one pixel land at its place, those of the others stay |
| CaptureTiling.Convert | libctru/source/services/apt.c:705-737 | every tile of the image is in place, paddings and the rest of the block are untouched |
| CaptureLayout.PlacesInBounds | libctru/source/services/apt.c:705-737 | every byte's place lies below 256 * height * bytes per pixel |
| CaptureLayout.PlacesDistinct | libctru/source/services/apt.c:705-737 | distinct bytes have distinct places |
| CaptureLayout.Detiled | libctru/source/services/apt.c:705-737 | reading each pixel at its place gives the image back |
| CaptureLayout.DetiledByBits | libctru/source/services/apt.c:705-737 | the same in the source's numbers, by the bits of the pixel's place: 32 tiles of 64 pixels a row in the block, 240 pixels a row in the image |
| CaptureLayout.ImagesFit | libctru/source/services/apt.c:172-192 | the bottom, left and right images lie one after the other and within the computed size |
| CaptureLayout.CaptureNumbers | libctru/source/services/apt.c:172-192 | bytes a pixel by format, the 3D bit 0x20, and the exact offsets and size, from the two format words |
| CaptureLayout.Capture | libctru/source/services/apt.c:786-805 | after the two or three conversions every image is whole |
| Polynomials.RunDivides | libctru/source/applets/miiselector.c:163-170 | the register divides by the generator: what goes in is quotient times generator plus the register |
| Polynomials.RemainderUnique | libctru/source/applets/miiselector.c:163-170 | quotient and remainder are determined by the dividend |
| Crc16.CrcIsRemainder | libctru/source/applets/miiselector.c:153-173 | the CRC, and nothing else, is the remainder of the message times x^16, the start value in front |
| Crc16.CrcLinear | libctru/source/applets/miiselector.c:153-173 | the CRC is linear over exclusive-or for equal lengths |
| Crc16.ChecksumChecks | libctru/source/applets/miiselector.c:153-173 | with 16 bits appended the CRC is zero if and only if they are the message's CRC |
| Crc16.KnownValues | libctru/source/applets/miiselector.c:153-173 | the byte 1 gives 0x1021 and the byte 0x80 gives 0x9188, which fixes the generator and the order of the bits |
| Crc16.FedIsStep | libctru/source/applets/miiselector.c:163-170 | the unmasked 32-bit step acts on the low 16 bits as one step of the register |
| Crc16.Crc16Ccitt | libctru/source/applets/miiselector.c:153-173 | the nested loops compute that CRC; a missing buffer gives 0xFFFF |
| Crc16.FeedByte | libctru/source/applets/miiselector.c:165-166 | the eight bits of a byte enter the register, the highest first |
| Crc16.FeedZeros | libctru/source/applets/miiselector.c:169-170 | the 16 zero bits after the message make the register the CRC |
| Crc16.ChecksumIsValid | libctru/source/applets/miiselector.c:175-181 | accepts exactly when the CRC of the data and the stored big-endian checksum together is zero |

## Left out

- LightEvent.WokenBeforeAnyClear: says that the sleeper has been woken, not that its Wait has returned; in the one-shot case and in the sticky retry loop a woken waiter may find the state cleared again and sleep once more, as in the source.
- LightEventCalls.ClearClears: says that the state was cleared at some time during the call, not that it is at its return, because another thread may signal in between; `LightEventCalls.ClearThenTryWait` says it for a call without others stepping.
- LightLock.WordEncoding: the word is an unbounded integer; the lemma bounds it by the number of threads, which is far below 2^31.
- RecursiveLock.HeldWhileNested: for callers that nest fewer than 2^32 times.
- LightSemaphore.CountAndTally: for at most 0x7FFF threads, so that the 16-bit tally, which is modelled as wrapping, does not wrap.
- GspRings.CommandRing.Submit: for one submitting thread per process; nothing in the source keeps two apart.
- GxQueue.Scheduler.DoCommands: the source ignores the result of the submission; with at most three commands in flight the ring of 15 is not full.
- GxQueue.Scheduler.Run: one step; a completion of a stopped queue's command that arrives between setting isRunning and taking the lock is taken to arrive after it.
- GxQueue.Scheduler.Complete: that GSP reports a command of each kind by one event is taken from the header's comments, for DMA requests from the name of the event; a memory fill of the second unit alone, which reports PSC1 only, is not modelled.
- GxQueue.Scheduler.Wait: interrupts arrive between readings of the clock, not inside one.
- NdspChannel.Channel.ReadState: one channel and one report at a time; which frame's copy of the shared memory a report is read from is not part of the model.
- HookList.Hooks.CallHook: for callbacks that do not change the list while it is walked.
- GpuCommands.RoundTrip: for headers as the header macro makes them, with an empty count field, and registers that stay within 16 bits.
- GpuCommands.CommandBuffer.constructor: the memory reaches at least one word beyond the buffer, so that a pad there can be said; the offset is not past the end.
- GpuCommands.CommandBuffer.Add: a null parameter pointer stands for zeros, for at most 0x100 words; beyond that the source would read through an advanced null pointer. Parameters are a value, so overlap with the buffer is not modelled.
- CaptureTiling.Convert: for a height in whole tiles, which is what the source passes.
- RomFsPath.Mount.NavigateToDir: UTF-8 to UTF-16 conversion is a function that gives no units only for the empty text; its source is not part of this model.
- RomFs.Search: tables are maps from offsets to entries; the bytes of an image and the checks when it is mounted are not part of this model.
- Condition variables: two waiters that have registered but not yet gone to sleep can both sleep after one wakeup, so there is no such guarantee to prove.
- LightEvent_WaitTimeout and CondVar_WaitTimeout, and LightLock/LightSemaphore fairness.
- Memory barriers and cache flushes: all accesses are sequentially consistent.
- alignmentToShift, the linear and VRAM wrappers around the pool and the address map: address arithmetic is on unbounded integers, the region lying in the 32-bit space.
- GPUCMD_AddRawCommands, float conversions, NDSP filters and mixing: no state of their own, or rounding.
- romfs_stat, directory iteration and reading file data.
- IPC wrappers, service start-up and shut-down, console, keyboard and input.
