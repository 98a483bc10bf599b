# loopy: a verified model of its concurrent and in-place core

loopy is a C event loop. What can go wrong in it is not in its system calls but in the small protocols
and index structures around them: lock-free and locked channels, a flag-and-eventfd wake-up, a two-level
limiter, operation tables and submission rings shared with a kernel, intrusive lists, registration tables
that must agree with the kernel, and dispatch under callbacks that change the tables. This project models
those parts and proves what the code relies on.

Two forms are used side by side.

* **Protocols** shared by several threads, or by the program and the kernel, are state machines: every
  atomic access, copy, locked section, system call and callback is one step, any number of threads take
  steps in any order, and the results hold for every run. Names are the same everywhere: `Enabled` and
  `Step` define the machine, `Inv` is its invariant, `Legal` and `End` a run and where it ends, and the
  main results speak about every run from `Init`.
* **Code that works in place** - arrays, linked cells, counters - is written as classes and loops with
  those fields. Their methods are proved against the step functions or against sequences. A method that
  shares its fields with other threads lets them run between any two of its own accesses: the SPSC calls by
  whatever the other side may do, the limiter's calls by a schedule of machine runs.

Modules and the files they model:

* `Words`, `SpscRing`, `SpscCalls`, `SpscChannel`, `MpmcChannel`, `MpmcCalls`, `MpmcRing`, `AsyncChannel`:
  `src/loopyChannel.c`. The SPSC ring is byte-granular: a copy of an element is one step per byte. The two
  `Calls` modules say how the calls of one thread end, and when.
* `AsyncWake`: `src/loopyAsync.c` with the eventfd backend.
* `ConcurrencyLimiter` (the machine), `LimiterOverflow` (what happens when a limit test overflows),
  `LimiterCalls` and `LimiterProgress` (one call amid the others) and `LimiterCode` (the calls with their retry
  loops over the shared counters, each access a step of the machine): `src/loopyConcurrencyPool.c`. The counters
  are 64-bit words.
* `OpTable`, `OpTableCode`, `SubmissionRing`: `src/loopyAdapterIouring.c`. The kernel consumes entries and
  posts completions as it likes.
* `LinkedList`, `ConnPool`: `src/loopyConnPool.c`. The clock never goes back; the user's create and
  validate callbacks answer through parameters.
* `DnsQueue` (the machine) and `DnsLists` (the locked sections): `src/loopyDNS.c`. The resolver answers
  arbitrarily.
* `Masks`, `EventTable`, `EventTableCode`: `src/loopy.c` over `src/loopyAdapterLinux.c`. The kernel may
  refuse any call.
* `SolarisPort`, `SolarisPortCode`: `src/loopyAdapterSolaris.c` driven by `src/loopy.c`.
* `Dispatch` (the machine) and `DispatchCode` (the loop over an array that callbacks may replace): event
  processing and deferred deletion of `src/loopy.c`. The reference for what is registered is the log of the
  calls themselves.
* `LineFramer`: the line reassembly of `examples/pubsub_network.c`.
* `Sums`: sums over threads and slots.

Where the code does not do what one would wish, the code is kept, and it is said exactly when the property
holds; concrete runs show the failures:

* A blocking SPSC receive can return CLOSED with an element buffered (`SpscRing.ClosedWithBacklog`). Its CLOSED
  is final, whatever the producer does, exactly when at its start the ring holds something or no send in
  progress or to come can still publish (`SpscRing.ClosedFinalExactly`); being closed beforehand with no send
  past its gate is enough (`SpscRing.ClosedBeforeIsFinal`).
* A timed wait that expires together with its signal can lose a wake-up, of receivers
  (`MpmcChannel.TimedWaitLosesWakeup`) as of senders (`MpmcChannel.TimedSendLosesWakeup`); each role loses none
  exactly when its own calls have no timeout (`MpmcChannel.NoLostWakeupExactlyWhenUntimed`).
* Without a global limit the global counter can go below zero for a while
  (`ConcurrencyLimiter.UnlimitedGoesNegative`); it cannot exactly when a limit is set
  (`ConcurrencyLimiter.NeverNegativeExactlyWhenLimited`). Read as a word, such a balance is then recorded as the
  global peak for good (`ConcurrencyLimiter.UnlimitedPeakPoisoned`). With a limit, a reservation that is rolled back
  never reaches the peak (`ConcurrencyLimiter.RollbackMissesPeak`). The recorded global peak is the largest value the
  counter has had exactly when there is a limit and every user may hold that much (`ConcurrencyLimiter.PeakExactly`).
* The limiter's limit tests add in 64 bits, and a full counter passes them when limit plus request reaches 2^64
  (`LimiterOverflow.GlobalTestOverflows`, `LimiterOverflow.UserTestOverflows`). The limits hold in every run exactly
  while that sum stays below (`LimiterOverflow.LimitsHoldExactlyWhenRequestsFit`); the other results about the
  limiter are about runs in which no limit test overflows.
* Acquire discards an unusable idle connection without undoing its count as active
  (`ConnPool.DiscardStaysCounted`), so idle plus active is the total exactly on runs without discards
  (`ConnPool.Pool.Accounting`).
* An unhealthy release serves no waiter. That nobody waits beside an idle connection or room for a new one is kept
  by every operation, and by a release exactly if the connection is healthy and unexpired or nobody waits
  (`ConnPool.Pool.Release`).
* The rounding of the ring size leaves a spare slot exactly for capacities below 2^63 (`SpscChannel.RingSize`).
* epoll's answer to a removal is ignored, so a refused removal makes kernel and table disagree, exactly when it
  had something to take away (`EventTable.RefusedRemovalDisagrees`, `EventTable.RemovalAgreesExactly`).
* loopy.c calls the adapter's delete before it updates the mask, while the Solaris adapter's comment relies on
  the opposite order (`src/loopyAdapterSolaris.c:240-246`). No registered interest is lost in either order, but
  in loopy.c's order taking back one of two actions leaves both in the port (`SolarisPort.StaleWriteInterest`); a
  removal keeps the port at the registered interest exactly if the descriptor is pending or nothing is taken away
  (`SolarisPort.RemovalExactly`). In the assumed order the port is exact (`SolarisPort.ExactInAssumedOrder`).
* The line framer splits the stream at its newlines exactly when no newline stands behind a NUL byte
  (`LineFramer.SplitExactly`).

## Model

| member | source | states |
|---|---|---|
| Words.NextPowerOf2 | src/loopyChannel.c:135-147 | the bit smearing gives the least power of two not below n for 1 <= n <= 2^63, 1 for 0, and 0 above 2^63 |
| Words.SmearDoubles | src/loopyChannel.c:140-145 | each shift-and-or doubles the run of leading ones |
| Words.MaskedSlot | src/loopyChannel.c:230 | masking the wrapped 64-bit index gives the slot of the unwrapped one, because the ring size divides 2^64 |
| Words.MaskedDifference | src/loopyChannel.c:217-227 | the masked difference of two wrapped counters is the true element count, also after they wrapped |
| SpscChannel.RingSize | src/loopyChannel.c:183-203 | the ring has a slot more than the capacity exactly for capacities below 2^63, and then it is the least such power of two with its mask |
| SpscRing.EveryInterleaving | src/loopyChannel.c:210-264 | in every interleaving of producer and consumer the received values are an in-order prefix of the sent ones, the count never exceeds the capacity, and the slot being written never holds an unread element |
| SpscRing.StepRefinesFifo | src/loopyChannel.c:210-264 | every step is an append to, a take from, or no change of a bounded FIFO |
| SpscRing.SendFailsExactlyWhenFull | src/loopyChannel.c:210-236 | a try-send fails exactly on a wrong length or when the ring is full at its refresh of the cached tail |
| SpscRing.RecvFailsExactlyWhenEmpty | src/loopyChannel.c:238-264 | a try-receive fails exactly when the ring is empty at its refresh of the cached head |
| SpscRing.ClosedFinalExactly | src/loopyChannel.c:722-745 | from the state a blocking receive starts in: in every continuation its CLOSED leaves the ring empty if and only if the ring is not empty then or no send can publish any more |
| SpscRing.ClosedBeforeIsFinal | src/loopyChannel.c:668-745 | a receive that starts after the close, with no send past its gate, leaves nothing when it returns CLOSED |
| SpscRing.ClosedLeavesLateSends | src/loopyChannel.c:722-745 | in every run, what a blocking receive that returns CLOSED leaves is exactly what was sent after its emptiness check |
| SpscRing.ClosedWithBacklog | src/loopyChannel.c:734-739 | a run in which a blocking receive returns CLOSED while an element is buffered |
| SpscCalls.ReceiveEnds | src/loopyChannel.c:722-750 | over every run: a receive that ends has taken exactly the oldest element, or nothing; then the ring was empty at some moment of the call, and it was not to block, or its last step was on a closed channel, or its timeout expired |
| SpscCalls.SendEnds | src/loopyChannel.c:665-699 | over every run: a send that ends has published exactly its element, or nothing; then its last step was on a closed channel, or its length was wrong or the ring full at some moment and it was not to block or its timeout expired |
| SpscCalls.BoundedReceive | src/loopyChannel.c:238-264 | a receive that is not to block, or has something to take, or whose channel is closed, is over within the element size plus five of its own steps, and can always step |
| SpscCalls.BoundedSend | src/loopyChannel.c:210-236 | the same of a send that is not to block, or has room, or whose channel is closed |
| SpscCalls.ClosedRefusesSends | src/loopyChannel.c:665-668 | after the close, with no send past its gate, nothing is published in any continuation |
| SpscChannel.Spsc.TrySend | src/loopyChannel.c:210-236 | against a consumer running between any two accesses: appends the element, or fails because at some moment of the call the ring was full |
| SpscChannel.Spsc.TryRecv | src/loopyChannel.c:238-264 | against a running producer: takes the oldest element, or finds none only when at some moment nothing was in the ring |
| SpscChannel.Spsc.Publish | src/loopyChannel.c:229-235 | copying and publishing keeps every unread element |
| MpmcChannel.EveryInterleaving | src/loopyChannel.c:331-430 | for any threads the ring holds exactly the accepted items not yet received, in order; after the broadcast of a close nobody is asleep or about to sleep; after a receive returned CLOSED everything accepted was received |
| MpmcChannel.StepRefinesFifo | src/loopyChannel.c:338-430 | every step is a step of a bounded FIFO, and every way out tells the truth: FULL a full one, EMPTY an empty one, CLOSED a closed channel, to a receiver only when empty, to a sender with room exactly when closed |
| MpmcChannel.ClosedIsFinal | src/loopyChannel.c:393-423 | after a receive returned CLOSED no send is ever accepted and nothing is left, although the flag is set outside the lock |
| MpmcChannel.NobodySleepsAfterBroadcast | src/loopyChannel.c:599-613 | once close has broadcast no thread sleeps again |
| MpmcCalls.CallEnds | src/loopyChannel.c:331-427 | over every run: a send or receive ends by its own step, which appends exactly its element or takes exactly the first, or leaves the queue as it is with the channel closed (and empty, for a receive), the queue full or empty and the call not to block, or the timeout expired that was set |
| MpmcCalls.BoundedCall | src/loopyChannel.c:331-427 | a call that is not to block, or is awake on a closed channel, is over after at most four own steps; it can step, or whoever holds the mutex can |
| MpmcCalls.MutexIsReleased | src/loopyChannel.c:338-427 | nobody holds the mutex for more than three own steps |
| MpmcCalls.CloseCloses | src/loopyChannel.c:599-613 | over every run: a close is over after three own steps, and then the flag is set and everybody has been woken |
| MpmcCalls.SleepEndsExactly | src/loopyChannel.c:338-427 | a sleeper wakes exactly spuriously, by its timeout, by a broadcast, or by the one signal of the other role's commit that picks it |
| MpmcCalls.NothingAfterClosed | src/loopyChannel.c:393-398 | once a receive of the run has left because of the close, everything accepted has been received and no continuation accepts anything |
| MpmcChannel.NoLostWakeups | src/loopyChannel.c:338-427 | with spurious wakes, any number of threads and no timed receives: an unwoken sleeping receiver means no more items than woken receivers; with no timed sends the same of senders and free slots; either one whatever the other role does |
| MpmcChannel.TimedWaitLosesWakeup | src/loopyChannel.c:391-418 | for every capacity, a run with timed receives in which an item is buffered, a receiver sleeps and nobody is woken |
| MpmcChannel.TimedSendLosesWakeup | src/loopyChannel.c:340-366 | for every capacity, a run with timed sends in which a slot is free, a sender sleeps and nobody is woken |
| MpmcChannel.NoLostWakeupExactlyWhenUntimed | src/loopyChannel.c:331-430 | receivers never lose a wake-up if and only if receives have no timeout, senders if and only if sends have none, whatever timeouts the other role uses |
| MpmcRing.Ring.Push | src/loopyChannel.c:338-375 | in place: appends to the FIFO exactly when it is not full, else changes nothing |
| MpmcRing.Ring.Pop | src/loopyChannel.c:393-423 | in place: takes the first of the FIFO exactly when it is not empty |
| AsyncWake.TokenConservation | src/loopyAsync.c:168-199 | flag = senders between swap and write + eventfd count + callback between drain and clear, so the count never exceeds one |
| AsyncWake.HelpfulEnabled | src/loopyAsync.c:173-189 | while a send is unserved some step that brings the callback nearer is enabled |
| AsyncWake.EverySendIsServed | src/loopyAsync.c:240-271 | every send, whether it won or lost the swap, is followed by a start of the user callback within five helpful steps |
| AsyncWake.SendIsBounded | src/loopyAsync.c:168-189 | a send takes at most two steps, and can always take the next |
| AsyncWake.CountsAreTheSteps | src/loopyAsync.c:168-271 | the sends, and those a start of the callback served, are the swaps made and the swaps before the latest start |
| AsyncChannel.NothingIsStranded | src/loopyChannel.c:467-509 | each queued operation is in exactly one of list, batch and executed log, executed once, newest first; a non-empty list has a pusher about to signal, a wake-up outstanding, or the handler before its take |
| AsyncChannel.HelpfulEnabled | src/loopyChannel.c:868-902 | while the list is not empty a step towards the handler's take is enabled |
| AsyncChannel.DistanceFalls | src/loopyChannel.c:843-902 | no step of any thread moves the take further away |
| AsyncChannel.TakenInTime | src/loopyChannel.c:467-480 | a pushed operation is taken after a bounded number of helpful steps |
| AsyncChannel.ExecutedInTurn | src/loopyChannel.c:480-509 | the i-th operation of a batch is executed by the (i+1)-th execution |
| AsyncChannel.CountsAreTheSteps | src/loopyChannel.c:867-902 | every push of the run put an operation on the list and every execution executed one |
| ConcurrencyLimiter.StepKeeps | src/loopyConcurrencyPool.c:338-506 | every load, swap, rollback, release, release-all and removal keeps global = users' slots + amounts in flight |
| ConcurrencyLimiter.LimitsHold | src/loopyConcurrencyPool.c:338-418 | in every run without an overflowing limit test, with a limit: users' slots <= global <= limit, no subtraction can underflow, no user exceeds its limit |
| LimiterOverflow.RoomTestExactly | src/loopyConcurrencyPool.c:363-384 | the wrapping limit test is right for every count up to the limit if and only if limit + requested count is below 2^64; otherwise a full counter passes it |
| LimiterOverflow.GlobalTestOverflows | src/loopyConcurrencyPool.c:361-374 | for every limit and request that reach 2^64 together, a run in which the full pool reserves more |
| LimiterOverflow.UserTestOverflows | src/loopyConcurrencyPool.c:381-399 | the same of a full user without a global limit |
| LimiterOverflow.LimitsHoldExactlyWhenRequestsFit | src/loopyConcurrencyPool.c:338-401 | over every run whose requests are at most c: nothing is reserved beyond a limit if and only if the limit tested first, the pool's or else the users' bound, plus c is below 2^64 |
| ConcurrencyLimiter.QuiescentCountsAgree | src/loopyConcurrencyPool.c:338-466 | with no thread inside, in either mode: global is the sum of the users' slots, each user's peak the largest value its counter has had, the global peak the largest word that an acquire with both reservations saw, which with a limit is at most the largest value the global counter has had |
| ConcurrencyLimiter.PeakLoopRecords | src/loopyConcurrencyPool.c:80-87 | when a thread leaves a peak loop the recorded peak, the user's or the global one, is at least the value it was given, and stays so along every further run |
| ConcurrencyLimiter.UnlimitedPeakPoisoned | src/loopyConcurrencyPool.c:398-405 | without a limit, however much users may hold, a run ending with nobody inside in which the counter's true value never exceeded 0 and the recorded global peak is 2^64 - 2 |
| ConcurrencyLimiter.RollbackMissesPeak | src/loopyConcurrencyPool.c:369-395 | for every limit and smaller user limit m, a run ending with nobody inside in which the counter has been at m + 1 and the recorded global peak is 0 |
| ConcurrencyLimiter.PeakExactly | src/loopyConcurrencyPool.c:338-405 | over every run whose users may each hold at least m slots and that ends with nobody inside: the recorded global peak is the largest value the counter has had, if and only if 0 < limit <= m |
| ConcurrencyLimiter.UnlimitedGoesNegative | src/loopyConcurrencyPool.c:398-401 | a run without a limit in which the global counter is -1 |
| ConcurrencyLimiter.NeverNegativeExactlyWhenLimited | src/loopyConcurrencyPool.c:357-401 | the global counter never goes below zero if and only if a limit is set |
| LimiterCalls.AcquireEffect | src/loopyConcurrencyPool.c:338-418 | whatever the other threads do between its steps, an acquire that succeeds has itself added exactly its count to its user's counter and to the global one; one that is denied has added nothing to either; no other user is touched |
| LimiterCalls.DenialHasReason | src/loopyConcurrencyPool.c:357-395 | a denial saw its counter leave no room in the state of one of the call's own loads |
| LimiterCalls.ReleaseEffect | src/loopyConcurrencyPool.c:441-506 | a release or release-all has itself taken exactly the amount it answers out of its user's counter and out of the global one, and touched no other user |
| LimiterCalls.ReleasedAmount | src/loopyConcurrencyPool.c:447-494 | that amount is the one asked for or all that one of its loads found, for a release-all what its exchange found |
| LimiterProgress.LeftAloneItEnds | src/loopyConcurrencyPool.c:262-506 | whenever the others pause, a call in progress, wherever it stands, ends within ten of its own steps |
| LimiterProgress.RemoveEffect | src/loopyConcurrencyPool.c:277-287 | a removal that has ended has itself taken exactly what its user held out of the global counter, touched no other user, and its user is gone |
| LimiterCode.Pool.TryAcquire | src/loopyConcurrencyPool.c:338-418 | in place over the shared counters: under any schedule of the other threads and of spurious failures the call ends in the machine state, and with the answer, that the schedule determines; success adds the count to both counters, a denial nothing and had its reason |
| LimiterCode.Pool.ReserveGlobal | src/loopyConcurrencyPool.c:357-378 | the first retry loop takes the call on to its user reservation or ends it, as the schedule determines |
| LimiterCode.Pool.ReserveUser | src/loopyConcurrencyPool.c:381-401 | the second retry loop takes the call on past the user reservation, or gives the global one back and ends it |
| LimiterCode.Pool.UpdatePeak | src/loopyConcurrencyPool.c:80-87 | the peak loop over the user's peak does what the machine's thread does, to its end or to the end of the schedule |
| LimiterCode.Pool.Release | src/loopyConcurrencyPool.c:441-475 | in place: the call ends where the schedule determines; what it answers, at most what was asked for, has left both counters |
| LimiterCode.Pool.ReleaseAll | src/loopyConcurrencyPool.c:491-506 | in place: the call ends where the schedule determines; what its exchange found has left both counters |
| OpTable.CompletionsReachTheirOperation | src/loopyAdapterIouring.c:2202-2271 | over any run of submits, failures, completions, slot reuse and doubling: each operation was handed the word 2^63 + its id, live ids are distinct and never reissued, and each operation is called with its user data and the buffers of its group exactly for the completions carrying its word up to the first final one, a one-shot at most once; a word below 2^63 changes nothing |
| OpTable.IssuedInOrder | src/loopyAdapterIouring.c:752-806 | every submit of the run, nested ones included, got the next id and was marked failed exactly if it failed |
| OpTable.AllocateKeeps | src/loopyAdapterIouring.c:752-806 | taking a free slot or doubling keeps live ids distinct and every other operation |
| OpTable.CompleteKeeps | src/loopyAdapterIouring.c:2202-2271 | one completion, with whatever its callback submits, keeps the invariant |
| OpTableCode.Table.FindFree | src/loopyAdapterIouring.c:756-765 | finds the first inactive slot |
| OpTableCode.Table.OpAllocate | src/loopyAdapterIouring.c:752-806 | in place: first free slot or doubled array, next id, and the result is 2^63 + that id |
| OpTableCode.Table.OpFind | src/loopyAdapterIouring.c:809-826 | finds the live operation with the id, given with or without bit 63 |
| OpTableCode.Table.Dispatch | src/loopyAdapterIouring.c:2202-2271 | in place: one iteration of the completion loop does what the machine's step does |
| SubmissionRing.SubmissionQueue.GetSqe | src/loopyAdapterIouring.c:716-727 | with the kernel consuming meanwhile: an entry exactly when fewer than a ring are unconsumed, and never one the kernel still reads |
| SubmissionRing.SubmissionQueue.SubmitSqe | src/loopyAdapterIouring.c:729-738 | the kernel sees entries in submission order, also when the 32-bit tail wraps |
| SubmissionRing.SubmitLink | src/loopyAdapterIouring.c:6352-6419 | one link is published whole, with 2^63 + its id as user data and its own callback issued under it, or not at all |
| SubmissionRing.LinkChainSubmit | src/loopyAdapterIouring.c:6335-6424 | the chain is published consecutively and in order with the link flag on all but the last, consecutive words from 2^63 + the first id and each operation's own callback issued under its word; it stops short only at a null callback or a full ring |
| LinkedList.Stack.Unlink | src/loopyConnPool.c:674-680 | bypassing the current cell removes exactly it |
| LinkedList.Queue.Enqueue | src/loopyDNS.c:347-352 | appending at the tail pointer |
| LinkedList.Queue.Dequeue | src/loopyDNS.c:509-523 | taking the head; the tail pointer is cleared with the last cell |
| ConnPool.Pool.Accounting | src/loopyConnPool.c:145-195 | in every state: creates - destroys = total = idle + handed out <= maximum, active = handed out + discarded, and idle + active = total exactly without discards |
| ConnPool.DiscardStaysCounted | src/loopyConnPool.c:479-501 | a pool with one connection in all whose idle and active counts add up to two, after an acquire threw an idle one away |
| ConnPool.Pool.CreateConnection | src/loopyConnPool.c:145-179 | refused exactly at capacity or when the callback fails |
| ConnPool.Pool.RemoveFromIdleList | src/loopyConnPool.c:241-253 | the newest-used idle connection, counted as active |
| ConnPool.Pool.Acquire | src/loopyConnPool.c:470-526 | exactly the unusable connections at the front are destroyed, the next is handed out, or a new one when none is left and one may be created |
| ConnPool.Pool.AcquireAsync | src/loopyConnPool.c:528-552 | at once exactly when something is idle or the total is below the maximum, and then with what an acquire gives: exactly the front that failed validation or is past its lifetime is destroyed, the next idle connection or else a new one handed out; otherwise at the end of the wait queue. Nobody comes to wait beside an idle connection or room for a new one |
| ConnPool.Pool.Release | src/loopyConnPool.c:554-616 | a healthy connection goes to the longest waiter or the front of the idle list; an unhealthy or expired one is destroyed, serves nobody, and is replaced below the minimum; so nobody waits beside room afterwards exactly if the connection went on or nobody waited |
| ConnPool.Pool.HealthCheck | src/loopyConnPool.c:661-693 | exactly the connections failing validation go, the order of the rest stays |
| ConnPool.Pool.FirstTooLong | src/loopyConnPool.c:220-239 | because the list is newest first and the clock does not go back, the over-idle connections are a suffix |
| ConnPool.Pool.CleanupIdle | src/loopyConnPool.c:695-727 | removes exactly the first min(suffix length, total above the minimum) of that suffix, keeps the order, never goes below the minimum |
| ConnPool.KeptInOrder | src/loopyConnPool.c:661-727 | a walk that drops connections keeps the list newest first |
| ConnPool.SparedCells | src/loopyConnPool.c:703-722 | dropping while above the minimum drops a contiguous stretch |
| ConnPool.Pool.Prewarm | src/loopyConnPool.c:729-752 | creates until the count, the capacity or the first failure, and all become idle |
| DnsQueue.EveryInterleaving | src/loopyDNS.c:313-384 | each accepted query is in exactly one of pending, worker, completed, callback, delivered; delivered once; CANCELLED exactly if a cancel call of the run found it pending, and else with the answer that the resolver gave to a worker that held it; a completed result has a notification coming or a drain running |
| DnsQueue.FirstComeFirstServed | src/loopyDNS.c:313-362 | every resolve call that finds room is accepted under the next id; workers take queries in the order of acceptance; results are delivered in the order of completion |
| DnsQueue.PlacesStep | src/loopyDNS.c:699-823 | no step of workers, callers or loop loses, duplicates or invents a query |
| DnsQueue.CancelInvStep | src/loopyDNS.c:364-398 | a confirmed cancel, and nothing else, decides the status, from the mark to the delivery |
| DnsQueue.WorkFalls | src/loopyDNS.c:699-833 | each helpful step uses up work, an accepted query adds nine, nothing else adds any |
| DnsQueue.SleepEndsExactly | src/loopyDNS.c:699-720 | a sleeping worker wakes exactly spuriously or by the signal of an accepted query that picks it |
| DnsQueue.HelpfulEnabled | src/loopyDNS.c:703-720 | workers never all sleep over pending queries: while one is undelivered a helpful step is enabled |
| DnsQueue.EveryQueryIsDelivered | src/loopyDNS.c:778-823 | after a bounded number of helpful steps every accepted query has been delivered |
| DnsLists.Lists.Resolve | src/loopyDNS.c:313-362 | refused with 0 exactly at capacity, else the next id at the end of the pending list |
| DnsLists.Lists.Cancel | src/loopyDNS.c:364-384 | true exactly if the query is pending, and then exactly it is marked |
| DnsLists.Lists.CancelAll | src/loopyDNS.c:386-398 | every pending query is marked |
| DnsLists.Lists.Dequeue | src/loopyDNS.c:509-523 | takes the first pending query |
| DnsLists.Lists.EnqueueCompleted | src/loopyDNS.c:752-764 | appends the result |
| DnsLists.Lists.PopCompleted | src/loopyDNS.c:800-810 | takes the first result |
| EventTable.AnyRun | src/loopy.c:270-354 | after any calls with any refusals: the heap holds exactly the registered descriptors, maxfd is their maximum or -1, all are inside the table, and unless a removal's refusal was ignored the kernel's map is the table |
| EventTable.CallsDecide | src/loopy.c:270-354 | over every run: a descriptor is registered for reading, or for writing, exactly as the latest call that named that and took effect on it left it; other descriptors' calls do not matter |
| EventTable.TableReaches | src/loopy.c:51-104 | the table never shrinks and reaches every size asked for and every descriptor registered |
| EventTable.DoubledIsLeast | src/loopy.c:90-104 | growth ends at the least doubling of the size above the descriptor |
| EventTable.OnlyRefusalsFail | src/loopyAdapterLinux.c:98-149 | in every run in which the kernel refuses nothing of its own accord no ADD, MOD or DEL ever fails, and a further registration takes effect with the masks merged |
| EventTable.RefusedRemovalDisagrees | src/loopyAdapterLinux.c:126-149 | a run after whose refused removal the table and heap are empty and the kernel still watches the descriptor |
| EventTable.RemovalAgreesExactly | src/loopyAdapterLinux.c:126-149 | a removal keeps kernel and table in agreement exactly if it is not refused or has nothing to take away |
| EventTableCode.Loop.Resize | src/loopy.c:51-84 | the new array holds the old masks and then none; false exactly when the size is unchanged |
| EventTableCode.Loop.Conform | src/loopy.c:90-104 | the doubling loop terminates and the descriptor is then inside the table |
| EventTableCode.Loop.Peek | src/loopy.c:297-299 | the maximum of the registered descriptors or -1 |
| EventTableCode.Loop.NewFileEvent | src/loopy.c:270-303 | in place: the machine's registration |
| EventTableCode.Loop.DeleteFileEvent | src/loopy.c:328-354 | in place: the machine's removal |
| SolarisPort.NoInterestIsLost | src/loopyAdapterSolaris.c:174-356 | in every run no descriptor is both associated and pending, and every registered one is in one of the places with at least its mask |
| SolarisPort.CallsDecide | src/loopy.c:270-354 | over every run, in either order, the registered actions are what the latest effective call naming them left |
| SolarisPort.ExactInAssumedOrder | src/loopyAdapterSolaris.c:240-261 | were the mask updated before the delete, the port would hold exactly the registered interest |
| SolarisPort.RemovalExactly | src/loopy.c:342-343 | in loopy.c's order a removal, of some or all actions, keeps the port at exactly the registered interest if and only if the descriptor is pending or the removal takes nothing away |
| SolarisPort.HarmlessRunsStayExact | src/loopyAdapterSolaris.c:174-356 | along every run in loopy.c's order whose removals are all of that kind the port stays exact |
| SolarisPort.StaleWriteInterest | src/loopyAdapterSolaris.c:240-261 | a run that registers read and write and takes write back, after which the port still holds both |
| SolarisPort.NeverDissociated | src/loopyAdapterSolaris.c:247-261 | in loopy.c's order, along every run a descriptor leaves the port only because a poll returned it |
| SolarisPort.ReassociatedExactly | src/loopyAdapterSolaris.c:286-302 | the first loop of a poll associates exactly the pending entries, with their pending masks |
| SolarisPort.PollMoves | src/loopyAdapterSolaris.c:276-356 | a poll puts the pending descriptors back with their masks, takes the returned ones out and keeps them pending with theirs, and leaves the rest as they were |
| SolarisPort.AbortsExactly | src/loopyAdapterSolaris.c:240-302 | a step aborts the process exactly if the kernel refuses a poll that has a descriptor to put back or a removal from a registered descriptor in the port |
| SolarisPortCode.Port.LookupPending | src/loopyAdapterSolaris.c:122-132 | the first position of the descriptor or -1 |
| SolarisPortCode.Port.Add | src/loopyAdapterSolaris.c:174-208 | in place: the machine's add over the two arrays |
| SolarisPortCode.Port.Del | src/loopyAdapterSolaris.c:210-274 | in place: the machine's delete |
| SolarisPortCode.Port.PollEvents | src/loopyAdapterSolaris.c:276-356 | in place: the two loops of a poll do what the machine's step does |
| Dispatch.OnlyRegisteredHandlers | src/loopy.c:474-500 | whatever the callbacks register, remove or grow, a handler is called only while the calls so far make it the one registered for that descriptor and action, for an action that fired, with the data of the descriptor's latest registration |
| Dispatch.DeletedExactlyOnce | src/loopy.c:235-264 | tables live while events are processed, every index used is inside them, they are freed at most once, and after the loop exactly if deletion was asked for |
| Dispatch.TestCallsExactly | src/loopy.c:482-499 | a test calls exactly if its action fired and, by the log, a handler is registered at that moment, and then that one with the descriptor's data |
| Dispatch.TestsFollowTheCalls | src/loopy.c:482-499 | over every run: a test calls exactly the handler that the calls made so far registered for that action and did not remove, with the data of the latest registration |
| Dispatch.EveryEventIsTestedTwice | src/loopy.c:474-500 | whatever the callbacks do, the n-th test after a poll is of event n / 2, for writing if n is odd, and processing ends only after all of them |
| Dispatch.RunsUntilStopped | src/loopy.c:568-608 | over every run: the loop runs from its start to its exit, is told to stop exactly by a stop or deletion while it runs, and at its head polls on exactly if it has not been told to |
| Dispatch.StopEndsTheLoop | src/loopy.c:266-268 | after a stop or deletion inside the loop nothing is polled any more |
| Dispatch.StoppedLoopIsLeft | src/loopy.c:568-608 | a loop told to stop is left within four own steps for each fired event and three, timers aside |
| DispatchCode.Loop.ReadHalf | src/loopy.c:474-494 | in place: the read test and its callback, through a cached array, do the machine's test; afterwards the cached array is the current one even if the callback replaced it |
| DispatchCode.Loop.WriteHalf | src/loopy.c:496-498 | in place: the write test through the pointer the read half left does the machine's test |
| DispatchCode.Loop.HandleFired | src/loopy.c:474-499 | in place: both tests of one fired descriptor, with any calls made by its callbacks |
| DispatchCode.Loop.ProcessFired | src/loopy.c:474-500 | in place: the loop over all fired descriptors ends where the machine's tests end |
| LineFramer.AnyCutting | examples/pubsub_network.c:607-636 | however the stream is cut into reads, the lines handed over and the bytes kept are those of the whole stream |
| LineFramer.SplitExactly | examples/pubsub_network.c:622-628 | the framer splits the stream at its newlines exactly when no newline stands behind a NUL |
| LineFramer.FramesTheStream | examples/pubsub_network.c:596-636 | for a NUL-free stream in reads that fit: lines handed over and buffer together are the newline split, and the offered space is positive exactly while the unfinished line can still be at most 4095 bytes |
| LineFramer.Resume | examples/pubsub_network.c:630-635 | going on from the remainder is the same as reading everything again |
| LineFramer.Peer.Alloc | examples/pubsub_network.c:596-605 | the space behind the buffered bytes, keeping a byte for the terminator |
| LineFramer.Peer.StrChr | examples/pubsub_network.c:624 | the position strchr finds |
| LineFramer.Peer.Read | examples/pubsub_network.c:607-636 | in place: the buffer's lines are handed over in order and the remainder is moved to the front |
| LineFramer.Peer.OneRead | examples/pubsub_network.c:596-636 | in place: space offered, bytes received, lines handed over take the state after any reads to the state after one more |
| LineFramer.Peer.Compact | examples/pubsub_network.c:631-635 | the overlapping move keeps the remainder |

## Left out

- Memory order: an atomic access is one step of an interleaving; weaker C11 orderings are not modelled.
- System calls, sockets, TLS, file and process operations, kqueue and select backends, and the other examples.
- Timers: only that a timer callback may run during event processing; the timer wheel is not part of this model.
- The max heap behind maxfd is a set with a maximum; the tries and maps of the user registry are not part of this model.
- Sleep hooks before and after polling, and nested event loops started from a callback.
- Deletion requested outside event processing on a loop that frees itself: only the freed tables are modelled, not the memory of the loop object.
- Allocation failure everywhere, and freeing a pool, channel, resolver or ring with operations in flight.
- ConcurrencyLimiter.LimitsHold: speaks of runs in which no limit test overflows; `LimiterOverflow.LimitsHoldExactlyWhenRequestsFit` says when those are all runs. What calls return after an overflow is not modelled further.
- 64-bit wrap of query ids, 32-bit `int` overflow of the doubled table size.
- Changing a user's limit at run time, statistics counters, denied counts, and blocking counts of channels.
- The SPSC length read by a third thread.
- The pipe variants of the wake-up and of the resolver's notification.
- io_uring poll arming and re-arming, and the individual submit wrappers: one generic submit stands for them.
- Callbacks that make the operation table grow while the completion loop still holds a pointer into it: the model reads the operation before the callback and frees it by id.
- OpTableCode.Table.OpAllocate: operation ids of 2^63 and more are not issued by the model.
- SubmissionRing.LinkChainSubmit: the result of entering the kernel is a parameter.
- LimiterCode.Pool.TryAcquire: a call that has not ended when its schedule runs out answers StillTrying. Calls with a count of zero, which only answer INVALID or false, are not modelled.
- ConnPool.Pool.Acquire: user callbacks do not call back into the pool, and the pool is not destroyed while connections are out.
- MpmcChannel.NoLostWakeups: fairness of the mutex and the condition variable is not modelled.
- DnsQueue.EveryQueryIsDelivered: counts helpful steps; that the scheduler takes them is not part of this model. At least one worker is assumed where a helpful step is promised.
- LineFramer.Peer.Read: the protocol handler does not close the peer while lines are left.
