# A verified model of the acid runtime

acid is a C++ coroutine runtime with an RPC stack on top. This project models its four linked cores and proves
what they promise, on every input, every interleaving of their atomic steps, or every reachable state:

- **Fiber synchronisation**: the fiber mutex, its condition variable, the semaphore, the countdown latch and the
  bounded channel, as step systems over wait queues and as objects.
- **Scheduling**: the list of tasks that the worker threads share, the ordered timer set, the one-shot event table that
  mirrors the interest set of epoll, and the hooked blocking call that parks a fiber on both.
- **Bytes**: the chain of blocks with a cursor that behaves as one flat byte string, varints, zigzag and fixed
  integers on it, the tagless serializer, and the frames of the RPC protocol over a fragmenting stream.
- **Calls**: the routing of responses to concurrent calls by sequence id, the service registry with its two
  indexes, discovery, and the buffer rotation of the asynchronous logger.

Code that changes state in place is modelled by classes (`CoMutex`, `CoCond`, `ChannelImpl`, `TimerManager`,
`Scheduler`, `IOManager`, `IoCall`, `ByteArray`, `Serializer`, `Stream`, `RpcClient`, `RpcServiceRegistry`,
`AsyncLogger`): each method's contract ties the new state to a function of the old one, and the lemmas are about
those functions. Concurrency is a step system: a step is what runs under one lock, or one atomic operation where
there is no lock. Clocks, sizes of partial transfers, outcomes of system calls, addresses of objects and the order
in which messages arrive are inputs, and every result holds for all of them.

One file is one module. `Chunks` (flat strings in blocks), `BitOps` (the bit operators of C++ on numbers, bit by bit)
and `Options` are helpers.

`ByteArray::read` goes wrong from the second block on. An array of the model says by a constant, `repaired`, which of two
reads it has: the one as written, or the one that counts what is left of a block as `write` does. Results about
reading hold of both in an array of one block, and of the repaired one in any.

## What the proofs found

Where the code does less than it is meant to, the code is kept as it is, the failure is proved, and so is the exact
condition under which the code is right. The meant behaviour is proved beside it where later results need it.

- The mutex is released outside the guard of its queue. A fiber that queues itself in that window sleeps on a free
  lock (`AsWrittenCanStrand`); `StepStrandsIff` says which steps do it. Taking the lock twice and
  releasing it once lets another fiber in (`ReentryBreaksExclusion`).
- `notify()` drops the keep-alive timer although fibers may still wait (`NotifyKeepsAliveIff`), and that timer, made
  with an interval of -1, is always due (`KeepAliveIsAlwaysDue`).
- The rollover test takes any step back of the clock for a rollover in the first hour (`RolloverIff`).
- `refresh()` and the re-arming of an expiry never wake the sleeper; `StepHidesIff` says which of them hide a deadline
  from it, on any clock. On a clock that does not go back, and without wrap, none does (`NoMissedDeadline`).
- An event report that is not masked with the registered events can name an event that is gone, and then fails an
  assertion (`IdleReportAbortsIff`). Growing the event table to a size computed before another thread grew it
  further loses registrations (`ResizeKeepsLedgerIff`, `LedgerThroughoutIff`).
- A hooked call arms its timer before it registers its event: a timer that fires in between is lost, and the call
  waits without a limit (`TimeoutLostIff`).
- `ByteArray::read` counts the bytes left in a block from the position instead of the offset
  (`AsWrittenReadIff`), so that a call whose arguments go beyond one block of 4096 bytes may be lost
  (`LongArgumentsLost`), while all within one block arrive (`CallArrives`, `AnswerArrives`, `ReplyArrives`). Apart from that, a read of nothing behind the last block follows a null pointer
  (`ByteArray.Read`), so that an empty string at the very end of full blocks cannot be read back (`RoundTrip`).
- The iovec views never contain their last segment (`ViewMissesItsEnd`), so that as written no header can be received
  (`HeaderHasNoVectors`). The transfer loops compare an unsigned result with zero (`LoopsDifferIff`).
- Containers of containers do not come back (`NestedRoundTripIff`), nor does a failed `Result`
  (`OutcomeRoundTripIff`).
- A sequence id that is used again while an old message is under way routes the wrong answer; the bound of
  2^32 - 1 calls is exact (`ReuseCrosses`). A call that takes its id after the client was closed waits until its own
  timer ends it (`StrandedIff`).
- Unregistering publishes under the registry's own lock, which the inner hold releases: in that gap a registration of
  the same address stays for good, and an unregistration of it erases twice (`UnlockedUnregisterIff`).
- The logger's flusher, timing out, writes the current buffer before older ones that are queued (`FileInOrderIff`), and
  a signal sent while the flusher is not waiting leaves the appender waiting for good (`AppenderStuckIff`).

Where the source differs from its own comments the model follows the source: `acid/common/byte_array.h:210-217`
promises vectors for the whole length returned, `acid/rpc/serializer.h:243-249` promises containers within containers,
and `acid/common/stream.h:45-66` promises a negative result after an error.

## Model

| member | source | states |
|---|---|---|
| CoMutexSteps.RunKeepsInv | acid/common/co_mutex.cpp:8-54 | every interleaving of the single steps of lock() and unlock() keeps the agreement of lock word, owner field, guard, wait queue and fiber positions |
| CoMutexSteps.MutualExclusion | acid/common/co_mutex.cpp:8-54 | in every reachable state at most one fiber is between lock() and unlock(), and the owner field is 0 or that fiber, for clients that do not lock twice |
| CoMutexSteps.WaiterInOnePlace | acid/common/co_mutex.cpp:8-54 | a waiting fiber is in exactly one place: once in the queue, in the hand of one unlocker, or scheduled |
| CoMutexWakeups.FreeLockHasWokenWaiter | acid/common/co_mutex.cpp:39-54 | with unlock() as one step, a free lock with waiters always has a woken waiter on its way |
| CoMutexWakeups.StepStrandsIff | acid/common/co_mutex.cpp:39-54 | exactly which single step, in which state, leaves a waiter on a free lock with nobody coming |
| CoMutexWakeups.NoWindowNoStranding | acid/common/co_mutex.cpp:39-54 | a run without such a step strands nobody |
| CoMutexWakeups.AsWrittenCanStrand | acid/common/co_mutex.cpp:8-54 | a concrete run of two fibers that ends with one asleep in the queue of a free lock for good |
| CoMutexWakeups.ReentryBreaksExclusion | acid/common/co_mutex.cpp:10-12 | a fiber that locks twice and unlocks once is still inside when another fiber enters |
| CoMutexObject.CoMutex.TryLock | acid/common/co_mutex.cpp:35-37 | takes the lock exactly if it was free |
| CoMutexObject.CoMutex.TryOrQueue | acid/common/co_mutex.cpp:8-33 | under the guard: takes the lock, or appends the fiber to the wait queue |
| CoMutexObject.CoMutex.Lock | acid/common/co_mutex.cpp:8-33 | one pass of lock(): returns at once for the owner, else takes the lock or queues the fiber |
| CoMutexObject.CoMutex.Unlock | acid/common/co_mutex.cpp:39-54 | clears the owner, pops the first waiter, frees the lock and hands that waiter out |
| CoMutexObject.UndisturbedLock | acid/common/co_mutex.cpp:8-33 | undisturbed, the single steps of lock() do to the shared words what the method does |
| CoMutexObject.UndisturbedUnlock | acid/common/co_mutex.cpp:39-54 | undisturbed, the single steps of unlock() are the one-step unlock and schedule the waiter the method hands out |
| Conditions.NotifyKeepsAliveIff | acid/common/co_mutex.cpp:56-76 | after notify() the remaining waiters have their keep-alive timer exactly when there are none |
| Conditions.NotifyDropsTimer | acid/common/co_mutex.cpp:56-76 | two waiters and one notify(): a fiber waits without a timer |
| Conditions.WaitKeepsAlive | acid/common/co_mutex.cpp:95-126 | a wait leaves the keep-alive timer armed and the fiber last in the queue, whatever was there before |
| Conditions.CoCond.Wait | acid/common/co_mutex.cpp:95-126 | joins the queue and arms the keep-alive timer if there is none |
| Conditions.CoCond.Notify | acid/common/co_mutex.cpp:56-76 | the longest waiter and no other is handed to the scheduler; the timer is dropped |
| Conditions.CoCond.NotifyAll | acid/common/co_mutex.cpp:78-93 | all waiters are handed to the scheduler in order, nobody is left in the queue |
| Conditions.WokenInOrder | acid/common/co_mutex.cpp:56-126 | over any run fibers are handed to the scheduler in the order in which they began to wait, and those that were not still wait |
| Conditions.ReturnsOncePerWake | acid/common/co_mutex.cpp:56-126 | over any run a fiber returns from wait() exactly as often as it was handed over, but for one that has yet to retake the mutex |
| Counters.SemaphoreSafe | acid/common/co_mutex.cpp:128-147 | in every interleaving at most `num` more wait() calls have returned than permits came back, each free permit has a signalled waiter to take it, and with nobody signalled waiters wait only while none is free |
| Counters.NotifyLetsOneThrough | acid/common/co_mutex.cpp:131-147 | a notify() of a semaphore in use gives a permit back, and the longest waiter gets through with it |
| Counters.WaitTakesOrSleeps | acid/common/co_mutex.cpp:131-138 | a wait() takes a permit exactly if one is free and is last in the queue otherwise |
| Counters.LatchOpensAtZero | acid/common/co_mutex.cpp:149-171 | no wait() returns before the count is zero, at zero nobody is left asleep, and exactly `count` calls of count_down() succeed by then |
| Counters.EveryCallCounts | acid/common/co_mutex.cpp:160-171 | over any run the count is what it was less the calls of count_down(), down to zero |
| Counters.LastCountReleasesAll | acid/common/co_mutex.cpp:152-171 | the call that reaches zero wakes every sleeper, and each gets through |
| Counters.CoSemaphore.TryTake | acid/common/co_mutex.cpp:131-138 | one pass of wait(): a permit is taken exactly if one is free |
| Counters.CoSemaphore.Notify | acid/common/co_mutex.cpp:140-147 | a permit comes back and one waiter is signalled |
| Counters.CoCountDownLatch.Wait | acid/common/co_mutex.cpp:152-158 | goes through exactly at count zero |
| Counters.CoCountDownLatch.CountDown | acid/common/co_mutex.cpp:160-171 | counts down, wakes all at zero, and reports whether it could |
| Channels.NoLostWakeups | acid/common/channel.h:41-109 | in every reachable state a popper sleeps only while each queued value has a signalled popper, and dually for free slots; close leaves no sleeper; pushers and poppers never both sleep with nobody signalled |
| Channels.BoundedFifoRun | acid/common/channel.h:41-109 | in every interleaving, values popped, followed by the queue while open, are the values accepted, in order; the queue never outgrows its capacity |
| Channels.RepliesTellTheTruth | acid/common/channel.h:41-86 | each answer of push() and pop() tells exactly what was accepted or taken |
| Channels.NothingAfterClose | acid/common/channel.h:98-109 | after close() no push() or pop() succeeds and nobody goes to sleep |
| Channels.CloseWakesEveryone | acid/common/channel.h:98-109 | close() closes, drops the queue and hands every sleeper of both sides to the scheduler |
| Channels.SleepersAreRefused | acid/common/channel.h:41-109 | each of them can go on, and is refused |
| Channels.ClosedIff | acid/common/channel.h:98-109 | a run ends closed exactly if it began so or one of its moves is a close() |
| Channels.PushKeepsItsValue | acid/common/channel.h:41-59 | a push() that sleeps keeps the value it was called with, whatever others do meanwhile |
| Channels.SleepingPushHasItsArgument | acid/common/channel.h:41-59 | and that is its own argument |
| Channels.ZeroCapacityDeliversNothing | acid/common/channel.h:41-59 | a channel of capacity 0 never accepts or delivers anything |
| Channels.ChannelImpl.Push | acid/common/channel.h:41-59 | push() up to its return or its wait does the step of the model |
| Channels.ChannelImpl.PushAgain | acid/common/channel.h:48-58 | push() after a wake-up does the step of the model |
| Channels.ChannelImpl.Pop | acid/common/channel.h:68-86 | pop() up to its return or its wait does the step of the model |
| Channels.ChannelImpl.PopAgain | acid/common/channel.h:74-85 | pop() after a wake-up does the step of the model |
| Channels.ChannelImpl.Close | acid/common/channel.h:98-109 | close() wakes both sides in order, empties the queue and both wait queues, once |
| TimerRuns.ExpiryFiresExactlyTheDue | acid/common/timer.cpp:130-173 | without a rollover exactly the timers due fire, in order of deadline and address; recurring ones are due again at now + ms, one-shots are spent, all others untouched |
| TimerRuns.RolloverIff | acid/common/timer.cpp:192-199 | a step back counts as a rollover exactly when it is of more than an hour, or of any length in the first hour |
| TimerRuns.NextTimerIsLeast | acid/common/timer.cpp:114-128 | the answer is the wait until the least deadline of the set |
| TimerRuns.NoMissedDeadline | acid/common/timer.cpp:48-190 | over any run none of whose steps hides a deadline, and so over any run on a monotone clock without wrap, a wake-up was issued or no pending timer is due before the deadline the sleeper saw |
| TimerRuns.StepHidesIff | acid/common/timer.cpp:37-173 | exactly which step, on any clock, leaves a deadline before the one the sleeper saw without a wake-up |
| TimerRuns.OneShotEndsOnce | acid/common/timer.cpp:37-173 | over any run, rollovers and wrapping deadlines included, a one-shot timer is pending, fired once, or cancelled, and only one of these; a recurring one is pending until cancelled |
| TimerRuns.KeepAliveIsAlwaysDue | acid/common/timer.cpp:30-32 | a timer added with an interval of -1 is due from the first millisecond on |
| TimerRuns.RefreshMissesIff | acid/common/timer.cpp:48-61 | refresh() hides an earlier deadline from the sleeper exactly when the new deadline wraps before the one it saw |
| TimerRuns.RefreshCanMiss | acid/common/timer.cpp:48-61 | a run in which it does |
| TimerLives.DeadlineIsStartPlusInterval | acid/common/timer.cpp:30-173 | after any run on any clock the set holds exactly the timers added and neither cancelled nor spent, and each is due at the clock reading that last started it plus its interval, mod 2^64 |
| TimerLives.ExpiryAfterRun | acid/common/timer.cpp:130-173 | the next expiry fires exactly the pending timers due by then, or all on a rollover |
| TimerLives.WaitAfterRun | acid/common/timer.cpp:114-128 | the sleeper is told to wait until the first of them is due |
| TimerLives.AddedFiresOnTime | acid/common/timer.cpp:30-32 | a timer added at `now` fires at the expiries from now + ms on and at none before; if it is the first, the wait is ms |
| TimerLives.RefreshedFiresOnTime | acid/common/timer.cpp:48-61 | refreshed at `now` it fires from now + ms on |
| TimerLives.ResetFiresOnTime | acid/common/timer.cpp:63-87 | reset it fires from `now`, or its old start, plus the new interval on |
| TimerObjects.TimerManager.AddTimer | acid/common/timer.cpp:95-100 | the set with the new timer in its place, due at now + ms mod 2^64, and the tick raised if it came first |
| TimerObjects.TimerManager.Cancel | acid/common/timer.cpp:37-46 | the timer leaves the set and loses its callback, once |
| TimerObjects.TimerManager.Refresh | acid/common/timer.cpp:48-61 | the timer moves to now + ms within the set |
| TimerObjects.TimerManager.Reset | acid/common/timer.cpp:63-87 | the timer moves to its start or now plus the new interval, with its edge cases |
| TimerObjects.TimerManager.GetNextTimer | acid/common/timer.cpp:114-128 | answers the wait and lowers the tick |
| TimerObjects.TimerManager.DetectClockRollover | acid/common/timer.cpp:192-199 | the unsigned comparison, and the new previous time |
| TimerObjects.TimerManager.FireAll | acid/common/timer.cpp:157-172 | the loop over the expired timers re-arms or spends each and collects its callback |
| TimerObjects.TimerManager.ListExpiredCallback | acid/common/timer.cpp:130-173 | the whole of an expiry is the step of the model, and yields the callbacks of the timers fired, in order |
| Scheduling.TasksConserved | acid/common/scheduler.cpp:157-242 | scheduled tasks are those queued, in flight and done, as multisets, with fibers made at any time; the active count is the number in flight; pinned tasks stay on their thread |
| Scheduling.NoTickleLeavesOnlyRunningFibers | acid/common/scheduler.cpp:171-208 | when the scan tells no other thread, nothing left in the list could be started by any |
| Scheduling.SchedulesLast | acid/common/scheduler.h:53-108 | a scheduled task goes last |
| Scheduling.TakesTheEarliest | acid/common/scheduler.cpp:171-208 | an idle worker takes the earliest task that is neither another thread's nor a fiber that runs, and can take one exactly if there is one |
| Scheduling.GivesUpTheThread | acid/common/scheduler.cpp:210-226 | after a yield the fiber is ready, at its end it is finished; its job is done and the worker idle |
| Exclusivity.FiberOnOneThread | acid/common/scheduler.cpp:157-242 | if a fiber is scheduled at most once per park it is never on two threads, be it a scheduled one or one that a worker made for a callback |
| Exclusivity.ResumeAssertionHolds | acid/common/fiber.cpp:165-183 | then the assertion in resume() holds whenever a worker resumes |
| Exclusivity.SecondWakeBreaksExclusion | acid/common/scheduler.h:53-108 | scheduled twice, a parked fiber is taken by two workers |
| Exclusivity.SecondResumeFails | acid/common/fiber.cpp:165-183 | and the second one fails the assertion |
| SchedulerObject.Scheduler.Schedule | acid/common/scheduler.h:53-108 | appends it and asks for a tickle exactly if the list was empty |
| SchedulerObject.Scheduler.TakeTask | acid/common/scheduler.cpp:171-208 | takes the earliest task that the thread may start, and no other, and says whether to tell the rest |
| SchedulerObject.Scheduler.Stopping | acid/common/scheduler.cpp:94-97 | true exactly when stop was asked, the list is empty and nothing is in flight |
| SchedulerObject.FirstEligibleIs | acid/common/scheduler.cpp:171-199 | the index the scan looks for is the first eligible one, and there is only one such |
| SchedulerObject.Fiber.Resume | acid/common/fiber.cpp:165-183 | READY becomes RUNNING |
| SchedulerObject.Fiber.Yield | acid/common/fiber.cpp:185-208 | RUNNING becomes READY, a finished fiber stays finished |
| EventRuns.LedgerThroughoutIff | acid/common/iomanager.cpp:84-459 | with resizes and registrations that an add_event() decided on earlier among the steps, the copies of the event state agree at every moment of a run exactly if no such resize cuts off a registered event |
| EventRuns.FourCopiesAgree | acid/common/iomanager.cpp:84-459 | after any such run the pending count is the number of bits set, the kernel's interest set is those bits, and a slot is filled exactly if its bit is set |
| EventRuns.RequestsAlwaysLegal | acid/common/iomanager.cpp:150-320 | so ADD, MOD and DEL are always the request epoll accepts |
| EventRuns.WokenAtMostOnce | acid/common/iomanager.cpp:84-459 | after any such run a registration made once is still in the table, deleted, or triggered exactly once, and only one of these |
| EventLedger.IdleReportAbortsIff | acid/common/iomanager.cpp:428-450 | handling a report fails an assertion exactly when it names an event that is not registered |
| EventEffects.AddRegisters | acid/common/iomanager.cpp:150-207 | the waiter is registered for the event, in the table and in the kernel, and nothing else changes |
| EventEffects.DelRemoves | acid/common/iomanager.cpp:209-244 | the event is gone without a wake-up, and nothing else changes |
| EventEffects.CancelWakes | acid/common/iomanager.cpp:246-278 | the event is gone and its waiter handed to the scheduler |
| EventEffects.CancelAllWakes | acid/common/iomanager.cpp:280-320 | both events are gone and their waiters handed to the scheduler |
| EventEffects.ReportWakes | acid/common/iomanager.cpp:419-450 | exactly the reported events are gone, their waiters handed over, and the kernel watches the rest |
| EventEffects.ErrorWakesAll | acid/common/iomanager.cpp:412-450 | after an error or a hang-up every registered event is gone and every waiter handed to the scheduler |
| EventRuns.CurrentReportIsSafe | acid/common/iomanager.cpp:428-450 | a report of the present interest set never does |
| EventRuns.StaleReportAborts | acid/common/iomanager.cpp:428-450 | a report that an interleaved removal made stale does |
| EventRuns.ResizeKeepsLedgerIff | acid/common/iomanager.cpp:140-148 | resizing keeps the ledger exactly when no registered descriptor is cut off |
| EventRuns.LateResizeLosesEvents | acid/common/iomanager.cpp:150-163 | two threads that both saw a small table can cut off a registration |
| EventRuns.SleepIsBoundedIff | acid/common/iomanager.cpp:352-375 | the wait handed to epoll is at most 5 s and not past the next timer exactly when the narrowing to int does not make it negative |
| IoManagerObject.IOManager.AddEvent | acid/common/iomanager.cpp:150-207 | registers or fails as the model does, table growth included |
| IoManagerObject.IOManager.DelEvent | acid/common/iomanager.cpp:209-244 | removes without triggering |
| IoManagerObject.IOManager.CancelEvent | acid/common/iomanager.cpp:246-278 | removes and triggers |
| IoManagerObject.IOManager.CancelAll | acid/common/iomanager.cpp:280-320 | removes and triggers every event of the descriptor; its slots and nothing else go to the scheduler, that of READ first |
| IoManagerObject.IOManager.HandleReport | acid/common/iomanager.cpp:419-459 | re-arms the rest, then triggers what was reported; to the scheduler go the slots of those events, up to one that is not registered |
| HookIo.OneWakePerPark | acid/common/hook.cpp:94-190 | whichever of event, timer and cancellation comes first, the fiber is scheduled once per successful add_event(), never while it is not waiting, and reports a timeout only if its callback ran |
| HookIo.TimesOutIff | acid/common/hook.cpp:178-190 | after any run the step behind a wake-up returns ETIMEDOUT exactly if the call's own callback ran, and retries otherwise |
| HookIo.TransferIsLastCall | acid/common/hook.cpp:126-196 | a call has returned a transfer exactly if its last system call did not say EAGAIN, and then that call's result |
| HookIo.TimeoutEndsTheWait | acid/common/hook.cpp:145-185 | a parked call whose timer goes off is woken and returns ETIMEDOUT |
| HookIo.EventEndsTheWait | acid/common/hook.cpp:175-190 | a parked call whose event comes is woken and makes its system call again |
| HookIo.TimeoutLostIff | acid/common/hook.cpp:145-178 | exactly the step that leaves a waiting fiber without its timeout: add_event() after the callback ran |
| HookIo.LostTimeoutNeverWakes | acid/common/hook.cpp:145-190 | then nothing but the event ends the wait |
| HookIo.TimeoutCanBeLost | acid/common/hook.cpp:145-190 | a run in which that happens |
| HookIo.IoCall.Attempt | acid/common/hook.cpp:126-178 | from the retry label to the return or the yield |
| HookIo.IoCall.AfterYield | acid/common/hook.cpp:178-190 | after the yield: ETIMEDOUT if the callback cancelled the call, back to the retry otherwise |
| BlockReads.MeantReadIsExact | acid/common/byte_array.cpp:348-377 | from any position, across any number of blocks, the bytes of the flat string and the cursor behind them; a fault only behind the last block |
| BlockReads.AsWrittenReadIff | acid/common/byte_array.cpp:355 | as written the read is right exactly if it asks for nothing, starts in the first block, or starts beyond the second block's first byte and stays clear of its block's end |
| BlockReads.ReadAtUsesCursorBlock | acid/common/byte_array.cpp:379-404 | a read at a position delivers the bytes at its offset in the cursor's block, right only if it lies there |
| BlockReads.ViewMissesItsEnd | acid/common/byte_array.cpp:539-555 | the pushed vectors are a prefix that stops at the last block boundary before the end, complete exactly for length 0 |
| BlockReads.FullViewIsExact | acid/common/byte_array.cpp:539-555 | with the last segment pushed the vectors are exactly the bytes asked for |
| ByteArrays.ByteArray.AddCapacity | acid/common/byte_array.cpp:471-500 | room for the size asked, by whole blocks and none too many; the old blocks stay |
| ByteArrays.ByteArray.Write | acid/common/byte_array.cpp:311-346 | overwrites or appends exactly the given bytes, moves behind them, and changes no other byte of any block |
| ByteArrays.ByteArray.Read | acid/common/byte_array.cpp:348-377 | repaired, or as written on one block: out of range exactly when too few bytes are left; undefined for nothing behind the last block; else those bytes, and the position behind them |
| ByteArrays.ByteArray.ReadAsWritten | acid/common/byte_array.cpp:348-377 | on the real chain: the bytes and the cursor are right exactly under the condition of the lemma |
| ByteArrays.ByteArray.ReadAt | acid/common/byte_array.cpp:379-404 | exactly what a read at a position delivers, wrapped test and starting block included; the bytes at the position if it lies in the block of the cursor |
| ByteArrays.ByteArray.SetPosition | acid/common/byte_array.cpp:406-425 | refused beyond the capacity; beyond the size the size grows over what the blocks hold |
| ByteArrays.ByteArray.Clear | acid/common/byte_array.cpp:298-309 | one block, no contents, position 0 |
| ByteArrays.ByteArray.ToString | acid/common/byte_array.cpp:502-510 | the bytes from the position to the size, unchanged |
| ByteArrays.ByteArray.GetReadBuffers | acid/common/byte_array.cpp:526-556 | reports what is readable; the vectors show a prefix that is the whole only if that is nothing |
| ByteArrays.ByteArray.GetWriteBuffers | acid/common/byte_array.cpp:597-627 | makes room; the vectors offer less than asked for |
| ByteArrays.ByteArray.CursorInNumbers | acid/common/byte_array.cpp:311-425 | what all operations keep: capacity = blocks * base size, position <= size <= capacity, cursor = block number position / base size, null exactly at the capacity |
| ByteArrays.WriteThenRead | acid/common/byte_array.cpp:311-377 | repaired, or as written on one block: reading back from where a write began gives what was written, except nothing written behind the last block |
| Varints.VarRoundTrip | acid/common/byte_array.cpp:101-127 | reading a varint gives the value and stops at its last byte, whatever follows, for 32 and 64 bits |
| Varints.VarIsMinimal | acid/common/byte_array.cpp:217-250 | no bytes read as a value are fewer than those written for it, and the reader takes at most five or ten |
| Varints.VarPrefixFree | acid/common/byte_array.cpp:101-127 | no encoding is a proper prefix of another |
| Varints.ScratchSuffices | acid/common/byte_array.cpp:102-119 | the scratch arrays of five and ten bytes suffice |
| Varints.ZigZagMeaning | acid/common/byte_array.cpp:81-87 | n >= 0 becomes 2n and n < 0 becomes -2n - 1 |
| Varints.ZigZagBijection | acid/common/byte_array.cpp:81-95 | encoding and decoding are inverse both ways, at every width |
| BitOps.XorOnes | acid/common/byte_array.cpp:81-95 | exclusive or with a spread sign bit is the complement, which turns the source's shift and xor expressions into numbers |
| Varints.MoreFollows | acid/common/byte_array.cpp:102-112 | the mask and the continuation bit of a varint's byte as a number |
| Varints.FixBytesIgnoreHost | acid/common/byte_array.h:47-54 | the bytes written depend on the array's byte order and not on the host's |
| Varints.FixRoundTrip | acid/common/byte_array.cpp:178-211 | what a host of either order writes, a host of either order reads back |
| Varints.ByteOrder | acid/common/byte_array.h:47-54 | on the wire byte k of n is the one that counts 256^(n-1-k) |
| Varints.VarByteAt | acid/common/byte_array.cpp:101-127 | byte k of a varint holds the seven bits that count 128^k, and the top bit in all but the last |
| IntegerStreams.WriteVarUint | acid/common/byte_array.cpp:101-127 | the varint of the value is written at the position |
| IntegerStreams.VarScratch | acid/common/byte_array.cpp:101-127 | the loop fills the scratch array with exactly the encoding, within its bounds |
| IntegerStreams.ReadVarUint | acid/common/byte_array.cpp:217-250 | repaired, or as written on one block: the loop reads what the specification says, and leaves the position at the end if the bytes run out |
| IntegerStreams.ShiftIn | acid/common/byte_array.cpp:219-231 | the source's mask, shift and or: a digit keeps clear of the bits below and is cut to the width, so that the or is a sum |
| RoundTrips.RoundTrip | acid/rpc/serializer.h:122-374 | by the meant read, scalars, strings, containers of these and tuples, at any depth of tuples, come back equal and leave any suffix; the one exception is named |
| RoundTrips.NarrowScalarWire | acid/rpc/serializer.h:163-214 | 8- and 16-bit scalars are one or two bytes, high byte first, in two's complement |
| RoundTrips.WideScalarWire | acid/rpc/serializer.h:163-214 | 32- and 64-bit scalars are varints, zigzagged if signed; a string is its length and its bytes |
| RoundTrips.NestedElementsWire | acid/rpc/serializer.h:263-374 | for elements that are containers, lists, vectors and ordered sets write each, the other containers nothing |
| RoundTrips.NestedRoundTripIff | acid/rpc/serializer.h:250-374 | a container of containers comes back exactly when nothing was written for its elements and they are as new |
| RoundTrips.NestedContainersNeedEmpty | acid/rpc/serializer.h:250-311 | a list, vector or set of containers comes back only if it is empty |
| RoundTrips.OutcomeRoundTripIff | acid/rpc/rpc.h:138-156 | a result comes back with its own bytes exactly when it is a success or has no value to speak of |
| RoundTrips.HeadRead | acid/rpc/rpc.h:138-156 | after a failure the bytes of the value are left over |
| RoundTrips.AnswerRead | acid/rpc/rpc_client.h:277-286 | by the meant read, the answer of a successful call is read whole; the one exception is named |
| RoundTrips.ServerSeesTheCall | acid/rpc/rpc_server.cpp:219-224 | by the meant read, the server splits off the method's name and reads the very arguments the client passed; the one exception is named |
| SerializerObjects.Serializer.Write | acid/rpc/serializer.h:163-374 | operator<< on a real array writes the encoding at the position |
| SerializerObjects.Serializer.WriteItems | acid/rpc/serializer.h:284-290 | the loop over a container's elements writes their encodings in order |
| SerializerObjects.Serializer.Read | acid/rpc/serializer.h:123-374 | repaired, or as written on one block: operator>> on a real array takes from it what the parse of its unread bytes takes, errors included |
| SerializerObjects.Serializer.ReadItems | acid/rpc/serializer.h:272-281 | the reading loop, with the elements put into the container one by one, under the same condition |
| SerializerObjects.Serializer.ReadScalar | acid/rpc/serializer.h:123-160 | read() for each scalar type, whatever the host's byte order, under the same condition |
| RpcRequests.FromString | acid/rpc/serializer.h:56-59 | a new array holds exactly the string; when it is full to its capacity |
| RpcRequests.BuildRequest | acid/rpc/rpc_client.h:63-86 | the content of the request is name and arguments |
| RpcRequests.SplitRequest | acid/rpc/rpc_server.cpp:219-223 | repaired, or as written for a content of one block: name and rest are what the parse of the content gives |
| RpcRequests.CallArrives | acid/rpc/rpc_server.cpp:219-224 | from client to server through real arrays, any call repaired and any of one block as written: name and arguments arrive, on any pair of hosts; the one exception is named |
| RpcRequests.LongArgumentsLost | acid/common/byte_array.cpp:355 | as written, arguments of 4097 bytes whose last byte cannot be read |
| RpcRequests.HandleMethodCall | acid/rpc/rpc_server.cpp:206-227 | under the same condition the registered function gets the bytes behind the name, and the answer goes back under the request's id |
| Replies.AnswerArrives | acid/rpc/rpc_client.h:270-286 | a successful answer read through a real array, any repaired and any of one block as written, is the result sent; the one exception is named |
| Replies.ReadAnswer | acid/rpc/rpc_client.h:270-286 | an empty content is an unknown method, one too short for the type a mismatch, any other what the parse gives |
| Replies.ReadResults | acid/rpc/rpc_connection_pool.cpp:234-238 | the loop reads as many results as the counter says, errors included |
| Replies.ReplyArrives | acid/rpc/rpc_connection_pool.cpp:223-244 | through a real array, any reply repaired and any of one block as written gives the addresses found exactly as long as their number fits the counter |
| Framing.FrameRoundTripIff | acid/rpc/protocol.cpp:22-59 | a frame is received as its message, rest untouched, exactly if magic, id and length fit |
| Framing.FrameBytes | acid/rpc/protocol.cpp:33-42 | the frame byte by byte, id and length with the high byte first |
| Framing.PartOfFrame | acid/rpc/rpc_session.cpp:8-43 | nothing is received of a frame that is not complete |
| Framing.FramesRoundTrip | acid/rpc/rpc_session.cpp:8-43 | a list of messages comes back as that list with nothing left |
| Framing.LoopsDifferIff | acid/common/stream.cpp:5-57 | the loop as written and the signed one differ exactly when a transfer fails |
| Framing.FailureAddsAByte | acid/common/stream.cpp:8-14 | after a failed transfer it asks for one byte more than before |
| Sessions.Stream.ReadFixSize | acid/common/stream.cpp:5-18 | over any partial reads: the bytes asked for, or the end, or a failure |
| Sessions.Stream.ReadFixSizeInto | acid/common/stream.cpp:20-30 | the same into an array |
| Sessions.Stream.WriteFixSize | acid/common/stream.cpp:47-57 | over any partial writes: all bytes in order, or a prefix and a failure |
| Sessions.Encode | acid/rpc/protocol.cpp:33-42 | encode() builds the frame in an array |
| Sessions.DecodeMeta | acid/rpc/protocol.cpp:44-50 | decode_meta() reads the header's fields |
| Sessions.RecvProtocol | acid/rpc/rpc_session.cpp:8-43 | over any partial reads a message comes exactly as the frame says, the rest stays; else the null pointer |
| Sessions.SendProtocol | acid/rpc/rpc_session.cpp:45-50 | over any partial writes the whole frame goes out, or a prefix and a failure |
| Sessions.Deliver | acid/rpc/rpc_session.cpp:8-50 | messages sent over any fragmentation and received over any other arrive as the list sent, with nothing left, if the connection does not fail |
| Sessions.HeaderHasNoVectors | acid/common/byte_array.cpp:610-625 | as written the array offers no vector for a header |
| RpcCalls.CallsNeverCross | acid/rpc/rpc_client.h:196-256 | for any number of calls and any order of messages, a returned response answers its own request, and the receiver never blocks, if no call or message outlives 2^32 - 1 later calls |
| RpcCalls.IdIsRemainder | acid/rpc/rpc_client.h:215-221 | the id of a call is its number modulo 2^32 - 1 |
| RpcCalls.RunKeepsInv | acid/rpc/rpc_client.h:206-256 | every such run keeps table, ids, channels and messages in agreement |
| RpcCalls.StartSends | acid/rpc/rpc_client.h:196-228 | a call of an open client is registered under its id with an empty channel, and its request is under way |
| RpcCalls.ServeAnswers | acid/rpc/rpc_server.cpp:219-227 | a request that is served is answered under its id |
| RpcCalls.AnswerIsReturned | acid/rpc/rpc_client.h:241-286 | a response that is there for a waiting call is delivered, popped and returned, and the entry is gone |
| RpcCalls.TimeoutIsReturned | acid/rpc/rpc_client.h:230-262 | a waiting call whose timer goes off returns a time-out, and the entry is gone |
| RpcCalls.CloseWakesEveryCall | acid/rpc/rpc_client.cpp:53-75 | over any run, close() gives every unreturned call with an open and empty channel a null pointer, changes no other, empties the table and strands none of the calls there are |
| RpcCalls.ClosedIsReturned | acid/rpc/rpc_client.h:241-268 | a call that waits then returns that the connection was closed |
| RpcCalls.CloseLeavesNoOneWaiting | acid/rpc/rpc_client.cpp:53-75 | at any time after a close() no call waits for nothing that had its id by then |
| RpcCalls.StrandedIff | acid/rpc/rpc_client.h:196-222 | calls that take their id after the close, and only those, are stranded, until their own timer |
| RpcIdReuse.CollisionCrosses | acid/rpc/rpc_client.cpp:170-186 | a response under way with the next id and no entry may be returned by the next call |
| RpcIdReuse.ReuseCrosses | acid/rpc/rpc_client.h:215-221 | such a state is reached when a request is exactly 2^32 - 1 calls old: the bound is exact |
| RpcClients.RpcClient.Register | acid/rpc/rpc_client.h:212-222 | on the real table does the step of the model: takes the next id, wrapping before UINT32_MAX, and enters the channel unless the id is there |
| RpcClients.RpcClient.HandleMethodResponse | acid/rpc/rpc_client.cpp:170-186 | does the step of the model: the response goes to the channel under its id, if there is one and it is open |
| RpcClients.RpcClient.Unregister | acid/rpc/rpc_client.h:251-256 | does the step of the model: the entry under the id goes, unless the client is closed |
| RpcClients.RpcClient.Close | acid/rpc/rpc_client.cpp:53-75 | the first time every open and empty channel of the table gets a null pointer, the others stay as they are, and the table is empty; the step of the model |
| Registries.AlwaysAgree | acid/rpc/rpc_service_registry.cpp:193-245 | after any history the iterators of each address are those of its services, all and in order |
| Registries.UnregisterRemovesExactly | acid/rpc/rpc_service_registry.cpp:229-245 | exactly the address's services go, everyone else's stay in order |
| Registries.NumbersAreThere | acid/rpc/rpc_service_registry.cpp:236-242 | no kept iterator dangles |
| Registries.ServicesAreWhatStands | acid/rpc/rpc_service_registry.cpp:193-245 | the multimap holds exactly the registrations that no later unregistration undid, in their order |
| Registries.UnlockedUnregisterIff | acid/rpc/rpc_service_registry.cpp:229-245 | with any operations of other connections in the gaps after the erasures, nothing is erased twice and the indexes agree exactly if none of them is about the same address |
| RegistryObjects.RpcServiceRegistry.HandleRegisterService | acid/rpc/rpc_service_registry.cpp:198-203 | both indexes get the registration |
| RegistryObjects.RpcServiceRegistry.HandleUnregisterService | acid/rpc/rpc_service_registry.cpp:229-245 | the loop of erasures through valid iterators leaves exactly the services of other addresses, and the entry goes |
| RegistryObjects.RpcServiceRegistry.HandleDiscoverService | acid/rpc/rpc_service_registry.cpp:260-281 | the addresses of exactly the services of the name, in order, by their positions |
| Discovery.DiscoveryIff | acid/rpc/rpc_connection_pool.cpp:223-244 | by the meant read, the pool gets exactly the addresses found, or none, as long as their number fits the counter, and only then |
| Discovery.DiscoveryTellsWhatStands | acid/rpc/rpc_service_registry.cpp:253-292 | by the meant read, after any history a discovery gives the addresses of exactly those registrations of the name that no later unregistration of their address undid, in their order |
| AsyncLogOrder.RunKeepsInv | acid/logger/async_logger.cpp:57-114 | at any time of any run the two queues are a permutation of the four buffers, the current one is the head of the free ones, or the tail of the other queue while the appender waits, and the other free ones are empty |
| AsyncLogOrder.LinesConserved | acid/logger/async_logger.cpp:57-114 | lines in the file, in buffers and waiting are those appended that fit a buffer, as multisets, through rotations and time-outs |
| AsyncLogOrder.FileInOrderIff | acid/logger/async_logger.cpp:84-114 | the file is in the order of the append() calls exactly as long as no time-out found both the current buffer and the queue before it non-empty |
| AsyncLogOrder.FinalFileComplete | acid/logger/async_logger.cpp:38-55 | the destructor completes the file |
| AsyncLogOrder.AppendGoesWhere | acid/logger/async_logger.cpp:57-78 | an appended line goes behind those of the current buffer, alone into the next free one, or waits; a full buffer is queued and a sleeping flusher told |
| AsyncLogOrder.ResumeGoesWhere | acid/logger/async_logger.cpp:73-76 | a line that waited goes alone into the buffer freed |
| AsyncLogOrder.FlushEmptiesTheQueue | acid/logger/async_logger.cpp:93-100 | a flush leaves every queued buffer empty and free, and the others as they are |
| AsyncLogOrder.TimeoutWritesTheCurrent | acid/logger/async_logger.cpp:105-112 | a time-out writes the lines of the current buffer and those alone, and empties it |
| AsyncLogOrder.TimeoutCanReorder | acid/logger/async_logger.cpp:84-114 | four steps that put a later line first |
| AsyncLogOrder.AppenderStuckIff | acid/logger/async_logger.cpp:67-71 | an append() that has to wait is stuck exactly when the flusher is not waiting |
| AsyncLogOrder.StuckForGood | acid/logger/async_logger.cpp:67-113 | and nothing ends that |
| AsyncLoggers.LogBuffer.Append | acid/logger/async_logger.cpp:12-17 | a line that fits is appended, another is dropped |
| AsyncLoggers.AsyncLogger.Append | acid/logger/async_logger.cpp:57-78 | append() up to its return or its wait does the step of the model |
| AsyncLoggers.AsyncLogger.Resume | acid/logger/async_logger.cpp:73-76 | append() after the wait does the step of the model |
| AsyncLoggers.AsyncLogger.FlushAll | acid/logger/async_logger.cpp:93-100 | the queue is written in order, emptied and freed |
| AsyncLoggers.AsyncLogger.OnTimeout | acid/logger/async_logger.cpp:105-112 | the current buffer is written and emptied |

## Left out

- Sockets, epoll, pipes, symbol lookup, context switching, pthread primitives and files: foreign code. Their effects
  are inputs: which bytes arrive in which pieces, which events are reported, what a system call answers, the clock.
- HTTP, configuration, environment, YAML, descriptor tables, addresses, Lua bindings, log formatting and appenders:
  wrappers around libraries or text output.
- The publish and subscribe half of RPC server, registry and client, heartbeats, route strategies and the eviction of
  pooled connections: they add table lookups to what is modelled. A client that connects again after closing is not
  modelled either.
- Maps, multimaps and pairs in the serializer: as written their elements are not written at all. Floats and doubles
  are bit copies of fixed integers. The order in which a set or a bag is walked is an input.
- Liveness under unfair scheduling, and the memory model below single atomic steps.
- Starting and stopping worker threads, and the idle loop of the base scheduler, which the IO manager overrides.
- CoMutexSteps.MutualExclusion: for clients that do not lock twice, as the lock keeps no depth; `ReentryBreaksExclusion` is
  the other half.
- Exclusivity.FiberOnOneThread: for fibers scheduled at most once per park; `SecondWakeBreaksExclusion` is the other half.
- Exclusivity.ResumeAssertionHolds: the same; `SecondResumeFails` is the other half.
- EventRuns.FourCopiesAgree: for runs in which no late resize cuts off a registered event; `LedgerThroughoutIff` says that
  it fails in all others. A thread that keeps its pointer to a context which a resize cuts off is not modelled.
- EventRuns.RequestsAlwaysLegal: for the same runs.
- EventRuns.WokenAtMostOnce: for the same runs.
- ByteArrays.ByteArray.AddCapacity: sizes are unbounded; the wrap of the 64-bit sum `size + m_base_size - 1` is not
  modelled, as no memory holds such an array.
- The vectors from a given position (`acid/common/byte_array.cpp:558-595`), which nothing uses.
- ByteArrays.ByteArray.Read: the repaired read in arrays of more than one block; `ReadAsWritten` and `AsWrittenReadIff`
  are the one as written there.
- ByteArrays.WriteThenRead: the same.
- RoundTrips.RoundTrip: the meant read. As written a second input fails: contents that go beyond one block of 4096
  bytes, when a read starts at the second block or reaches the end of a later one.
- RoundTrips.AnswerRead: the same; `AnswerArrives` is the statement about real arrays.
- RoundTrips.ServerSeesTheCall: the same; `CallArrives` and `LongArgumentsLost` are the statements about real arrays.
- RpcRequests.CallArrives: as written only for a content of one block; beyond it `LongArgumentsLost` fails.
- RpcRequests.SplitRequest: as written only for a content of one block.
- RpcRequests.HandleMethodCall: as written only for a content of one block.
- SerializerObjects.Serializer.Read: as written only in an array of one block.
- SerializerObjects.Serializer.ReadItems: the same.
- SerializerObjects.Serializer.ReadScalar: the same.
- IntegerStreams.ReadVarUint: the same.
- Discovery.DiscoveryTellsWhatStands: the meant read; `ReplyArrives` says which replies the one as written takes.
- Sessions.Stream.ReadFixSize: the result of a transfer is compared with zero as a signed number, as the source's own
  comments have it; `LoopsDifferIff` says when the unsigned comparison differs, which is after a failed transfer only.
- Sessions.Stream.ReadFixSizeInto: the same; and the transfer into an array is the meant one, that of vectors with their
  last segment; `HeaderHasNoVectors` says what the vectors are as written.
- Sessions.Stream.WriteFixSize: the same for the transfer out of an array.
- Sessions.RecvProtocol: on those transfers.
- Sessions.SendProtocol: on those transfers.
- Sessions.Deliver: on those transfers.
- RoundTrips.OutcomeRoundTripIff: the value of a failed result, which the source leaves uninitialised for plain types, is
  taken as that of a new variable.
- RpcCalls.CallsNeverCross: the server answers each request at most once, and the network duplicates nothing.
- Discovery.DiscoveryIff: the meant read; and addresses are not empty, as the printed form of an address never is.
- AsyncLogOrder.RunKeepsInv: for one appending thread. While one waits, a second one whose line does not fit pops from an
  empty queue, which is undefined behaviour.
- AsyncLogOrder.FinalFileComplete: the destructor is called while no append() waits; otherwise it writes the last queued
  buffer twice.
