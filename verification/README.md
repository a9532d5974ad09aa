# Verified models of the operating-systems labs

This project models four components of the labs in Dafny and proves what they promise,
and exactly where they do not keep it:

- the **partition allocator** of lab 2 (`2lab/3/3-1.c`): first, best and worst fit over a
  linked free list, compaction, coalescing release;
- the **page-replacement simulators** of lab 2 (`2lab/4/4.c`): FIFO with a circular
  pointer and LRU with time stamps;
- the **message device** of lab 3 (`3lab/dev/glo_pro.c`): a blocking message queue used by
  any number of reader and writer threads;
- the **ring buffer device** of lab 3 (`3lab/dev/globalvar.c`).

Verify everything with `dafny verify dfyconfig.toml`.

## How it is built

| files | content |
|---|---|
| `Paging`, `PageFrames`, `FifoSimulator`, `LruSimulator` | pages as sequences; the two simulators over arrays, and exactly when they compute those sequences |
| `LruStack`, `Competitive`, `CompetitiveLimits`, `PagingSchedules` | stack property, hit condition; the competitive bound against every offline schedule, and why it cannot be improved |
| `Sequences`, `Arithmetic`, `Tickets` | lists without repetition; products; tickets that are issued and filed once |
| `Sorting`, `Blocks` | what `qsort` promises; address ranges, totals, the canonical coalesced form |
| `MemoryModel`, `MemorySafety`, `Compaction` | allocator states and steps, the invariant over all runs, compaction |
| `MemoryTheorems`, `StuckRun` | placement, undo, accounting, when a request returns, runs that hang or are refused |
| `PartitionAllocator` | the allocator as a class whose methods take those steps |
| `MessageQueue`, `MessageSafety`, `MessageTheorems`, `MessageRuns` | the device as a step system, its invariant, its guarantees, runs that reach the limits |
| `MessageCalls` | what each call returns, told from what was asked for |
| `MessageDevice` | the device as a class with the fields of `struct mydev`, one method for each kind of atomic step |
| `RingBuffer`, `RingRaces`, `Octets` | the ring as a queue of bytes, whole runs, the device class; interleaved calls |

The linked lists of the allocator are fields of type `seq`, head first; positions stand for
nodes. The allocator's `lost` counter is ghost state: bytes that neither list accounts for. In
the device what the threads are doing, and what happened so far, is ghost state.

The message device runs one atomic step at a time: a critical section, a look at a wait
condition, a wake-up, a copy. `wait_event_interruptible` puts the thread on the wait queue
before it looks, so looking and falling asleep is one step, and so is the look after a
signal. A process that both reads and writes is a reader thread and a writer thread of the
model.

## Where code and intention differ

- A near-exact fit drops up to `MIN_SLICE` bytes that return only with a compaction
  (`2lab/3/3-1.c:219-223`); terminating such a process does not give them back.
- A create that triggers compaction is refused although the retry succeeded, and the bytes
  carved by the retry are lost until the next compaction (`2lab/3/3-1.c:247-251`);
  `RefusedAfterCompaction` is a run that gets there.
- With no live process compaction does nothing (`2lab/3/3-1.c:162`), so a request that fits
  the sum but no block recurses for ever. `ReturnsExactly` gives the exact condition,
  `RequestGetsStuck` a run that gets there. `Execute` therefore asks for that condition.
- The page simulators mark empty slots with -1 and accept it as a page (`2lab/4/4.c:58`,
  `2lab/4/4.c:163`). `FifoExactly` and `LruExactly` say when that does no harm.
- The 64 KiB cap that `3lab/README.md:108` documents for the message device holds only
  with one writer, because check and append are separate critical sections
  (`3lab/dev/glo_pro.c:198-224`).
- A non-blocking read probes and then still waits (`3lab/dev/glo_pro.c:143-155`); with a
  second reader it can sleep, and a blocking read can give up with -EAGAIN.
- In the ring `rd == wr` is ambiguous: a write into a full ring overwrites everything, and a
  write of nothing into an empty ring lets a reader in (`3lab/dev/globalvar.c:135-151`).
- A read lowers the flag even when it leaves bytes behind (`3lab/dev/globalvar.c:109`), so the
  next reader sleeps over stored bytes until another write ends.
- The flag is tested before the semaphore is taken and raised after it is released
  (`3lab/dev/globalvar.c:105-109`, `3lab/dev/globalvar.c:150-151`), so a reader can get to an
  empty ring even with one reader and one writer.

## Model

| member | source | states |
|---|---|---|
| `FifoSimulator.SimulateFifo` | 2lab/4/4.c:23-82 | On every input the loop over frames and `fifo_ptr` computes the slots, the pointer and the fault count of the slot-by-slot specification; if no request is for page -1 these are the FIFO queue, read cyclically from the pointer, its fault count, and that count modulo k. |
| `FifoSimulator.FifoExactly` | 2lab/4/4.c:32-78 | For all requests, page -1 included: slots, pointer and fault count are those of the FIFO queue at every moment iff every request is faithful: -1 is requested only when no slot is empty, and while page -1 is resident a page is loaded only in its place. |
| `FifoSimulator.EmptyMarkerHits` | 2lab/4/4.c:37-51 | The input where that fails: a first request for -1 counts as a hit, because -1 marks an empty slot. |
| `FifoSimulator.FaithfulRequest` | 2lab/4/4.c:37-77 | One faithful request is one step of the queue, and on a fault it writes the slot at the pointer and no other and moves the pointer on by one. |
| `FifoSimulator.UnfaithfulRequest` | 2lab/4/4.c:37-77 | Any other request is counted wrongly or leaves slots that are not the queue. |
| `FifoSimulator.Replace` | 2lab/4/4.c:72-77 | With all slots full the slot under the pointer holds the head of the queue, and overwriting it and advancing the pointer is one queue step. |
| `FifoSimulator.PlaceInEmpty` | 2lab/4/4.c:56-69 | Filling the next empty slot and setting the pointer past it is one queue step. |
| `PageFrames.FindPage` | 2lab/4/4.c:37-44 | The first slot that holds the page, or none. |
| `Paging.FifoHoldsLastFaults` | 2lab/4/4.c:72-77 | At every moment FIFO holds exactly the last k pages that faulted, oldest first, so the victim is the page loaded earliest. |
| `Paging.FifoShape` | 2lab/4/4.c:37-69 | FIFO holds at most k pages, no page twice, only requested pages, and always the page just requested. |
| `LruSimulator.SimulateLru` | 2lab/4/4.c:84-153 | On every input the loop over frames and time stamps computes the slots, the stamps and the fault count of the slot-by-slot specification; if no request is for page -1 occupied slots hold exactly the recency stack, each stamped with the time of its last request, and the count is that of the stack. |
| `LruSimulator.LruExactly` | 2lab/4/4.c:97-149 | For all requests, page -1 included: slots, stamps and fault count are those of the recency stack at every moment iff every request is faithful in the same sense. |
| `LruSimulator.EmptyMarkerHits` | 2lab/4/4.c:103-119 | The input where that fails: a first request for -1 counts as a hit. |
| `LruSimulator.RequestPage` | 2lab/4/4.c:97-149 | One pass of the loop: whether the page is in a slot, and which slot takes it and its stamp. |
| `LruSimulator.FaithfulRequest` | 2lab/4/4.c:97-149 | One faithful request hits iff the page is in the stack, and is one step of the stack. |
| `LruSimulator.UnfaithfulRequest` | 2lab/4/4.c:97-149 | Any other request is counted wrongly or leaves slots that do not hold the stack. |
| `LruSimulator.StampsAreTimes` | 2lab/4/4.c:99-147 | The stamps of occupied slots are distinct, lie between 1 and the time counter, and name requests for the page in the slot. |
| `LruSimulator.SmallestStamp` | 2lab/4/4.c:139-142 | The victim scan returns the first slot with a smallest stamp. |
| `LruSimulator.OldestIsVictim` | 2lab/4/4.c:139-145 | That slot holds the least recently used page. |
| `LruSimulator.Replace` | 2lab/4/4.c:143-145 | Overwriting the victim and stamping it keeps slots and stack in step. |
| `LruStack.LruHoldsMostRecent` | 2lab/4/4.c:97-149 | The frames hold the min(k, distinct) most recently used distinct pages, in strictly increasing order of last use, and every other requested page was used earlier than all of them. |
| `Paging.HistoryIsRecencyOrder` | 2lab/4/4.c:97-149 | The recency list holds every requested page once, ordered by the time of its last request. |
| `LruStack.HitCondition` | 2lab/4/4.c:103-119 | A request hits iff its page was requested before and fewer than k distinct pages were requested since. |
| `LruStack.Inclusion` | 2lab/4/4.c:84-153 | Stack property: with more frames LRU holds a superset of the pages, after every request sequence. |
| `LruStack.MoreFramesNeverHurt` | 2lab/4/4.c:84-153 | LRU never faults more often when frames are added. |
| `Competitive.FifoWindow` | 2lab/4/4.c:32-78 | From any reachable state FIFO faults at most once on each distinct page of a window of at most k distinct pages. |
| `Competitive.LruWindow` | 2lab/4/4.c:97-149 | The same for LRU. |
| `Competitive.SchedulePays` | 2lab/4/4.c:32-78 | Lower bound for every offline schedule with h frames that starts empty: one fault, k - h + 1 more per finished phase of k distinct pages, and one for each page of the current phase beyond h. |
| `Competitive.FifoCompetitive` | 2lab/4/4.c:32-78 | For every request sequence and every demand-paging schedule with h <= k frames: (k - h + 1) times FIFO's faults is at most k times the schedule's faults plus (k - h)(h - 1). |
| `Competitive.LruCompetitive` | 2lab/4/4.c:97-149 | The same bound for LRU. |
| `Competitive.KCompetitive` | 2lab/4/4.c:32-149 | With equally many frames FIFO and LRU each fault at most k times as often as any schedule. |
| `CompetitiveLimits.FamilyOverCircle` | 2lab/4/4.c:32-149 | For every k and m: requests for k + 1 pages in a circle on which FIFO and LRU fault all k (m + 1) times and a schedule with k frames k + m times. |
| `CompetitiveLimits.NoSmallerFactor` | 2lab/4/4.c:32-149 | So the factor k cannot be improved: for every smaller fraction and every additive constant some requests and some schedule break the bound, for FIFO and for LRU. |
| `PagingSchedules.FifoIsSchedule` | 2lab/4/4.c:32-78 | FIFO's own frame contents over time form such a schedule, with FIFO's fault count. |
| `PagingSchedules.LruIsSchedule` | 2lab/4/4.c:97-149 | LRU's own frame contents over time form such a schedule, with LRU's fault count. |
| `PagingSchedules.FifoAgainstLru` | 2lab/4/4.c:23-153 | Neither algorithm faults more than k times as often as the other. |
| `PartitionAllocator.Allocator.constructor` | 2lab/3/3-1.c:40-54 | One free block over the whole default memory, no process. |
| `PartitionAllocator.Allocator.RearrangeBy` | 2lab/3/3-1.c:83-113 | The free list becomes a permutation of itself ordered by the policy's key; the length counter still counts it. |
| `PartitionAllocator.Allocator.SortBySize` | 2lab/3/3-1.c:228-229 | After a split only best and worst fit sort again; first fit leaves the list alone. |
| `PartitionAllocator.Allocator.DeleteFreeBlock` | 2lab/3/3-1.c:131-136 | Unlinks one block and decrements the counter. |
| `PartitionAllocator.Allocator.InsertFreeBlock` | 2lab/3/3-1.c:138-144 | Links one block in and increments the counter. |
| `PartitionAllocator.Allocator.MoveDown` | 2lab/3/3-1.c:158-176 | The loop over the address-sorted array gives every process the total size of the processes below it as its new address, and ends at the live total. |
| `PartitionAllocator.Allocator.CompactMemory` | 2lab/3/3-1.c:156-204 | The whole new state: nothing without live processes; otherwise slid processes and one free block over the rest, if any. |
| `PartitionAllocator.Allocator.FindFit` | 2lab/3/3-1.c:211-235 | The scan stops at the first block that is large enough. |
| `PartitionAllocator.Allocator.TakeFrom` | 2lab/3/3-1.c:215-232 | Serving a request from a block: start address, dropped bytes on a near-exact fit, and the remaining list in policy order. |
| `PartitionAllocator.Allocator.TotalFree` | 2lab/3/3-1.c:237-243 | The sum over the free list. |
| `PartitionAllocator.Allocator.AllocateMem` | 2lab/3/3-1.c:206-252 | All three outcomes: served from the first fit; refused without change; refused after compaction with the request carved out and lost. It terminates whenever it is called where the code returns. |
| `PartitionAllocator.Allocator.CompactAndRetry` | 2lab/3/3-1.c:245-251 | The compacting branch: the inner call succeeds, its result is ignored, -1 is returned. |
| `PartitionAllocator.CarveKeepsOrder` | 2lab/3/3-1.c:219-230 | First-fit order survives a split without sorting because blocks are disjoint; any order survives a removal. |
| `PartitionAllocator.Allocator.MergeNeighbours` | 2lab/3/3-1.c:270-286 | The merge loop ends with no two touching blocks and the same covered addresses and total. |
| `PartitionAllocator.MergeStep` | 2lab/3/3-1.c:276-282 | One merge keeps address order, covered addresses and total, and leaves no touching pair before the cursor. |
| `PartitionAllocator.Allocator.FreeMem` | 2lab/3/3-1.c:254-290 | The free list becomes the coalesced list, in policy order, that covers exactly the old free addresses and the released range. |
| `PartitionAllocator.Allocator.SetMemSize` | 2lab/3/3-1.c:303-320 | The size can be set once, before anything else happened. |
| `PartitionAllocator.Allocator.SetAlgorithm` | 2lab/3/3-1.c:322-333 | A valid choice becomes the policy; the list is sorted by the current policy either way. |
| `PartitionAllocator.Allocator.NewProcess` | 2lab/3/3-1.c:336-373 | Return values 1, 2 and -1, the new pid, and the process at the head of the live list on success. |
| `PartitionAllocator.Allocator.FindProcess` | 2lab/3/3-1.c:398-407 | The first list position with the pid, or none. |
| `PartitionAllocator.Allocator.Dispose` | 2lab/3/3-1.c:376-395 | Exactly that process leaves the live list. |
| `PartitionAllocator.Allocator.KillProcess` | 2lab/3/3-1.c:409-421 | An unknown pid changes nothing; a known one releases its range and leaves the list. |
| `PartitionAllocator.Allocator.Execute` | 2lab/3/3-1.c:471-512 | One turn of the menu loop is a step of the state machine and keeps the invariant, including the length counter. |
| `MemorySafety.RunKeepsInv` | 2lab/3/3-1.c:471-512 | In every state of every run: free and live ranges are non-empty, disjoint, inside the memory; no two free blocks touch; the list is in policy order; pids are distinct; free + live + lost bytes equal the memory size. |
| `MemorySafety.StepKeepsInv` | 2lab/3/3-1.c:206-421 | Every menu operation keeps that invariant. |
| `MemorySafety.UsedBound` | 2lab/3/3-1.c:171-175 | The free total and the compaction cursor never exceed the memory size. |
| `MemorySafety.CompactedInv` | 2lab/3/3-1.c:156-204 | Compaction with a live process keeps the invariant, recovers all lost bytes and leaves at most one free block. |
| `MemorySafety.RetrySucceeds` | 2lab/3/3-1.c:245-249 | After compaction the inner scan succeeds on its first block, so the self-call nests at most once. |
| `Compaction.CompactionKeepsMeaning` | 2lab/3/3-1.c:156-176 | Compaction keeps every pid and size and the address order, moves no process upward, and the processes cover exactly the addresses below their total size. |
| `Compaction.BelowBound` | 2lab/3/3-1.c:171-175 | Disjoint blocks that end at or below an address have total size at most that address. |
| `MemoryTheorems.PolicyChoice` | 2lab/3/3-1.c:211-217 | The first match is the lowest-address, smallest or largest sufficient block under first, best and worst fit. |
| `MemoryTheorems.ServedWhenPossible` | 2lab/3/3-1.c:206-232 | A request that some free block can hold gets a range of that size inside formerly free memory, and the other processes stay as they were. A corollary of the same outcomes. |
| `MemoryTheorems.ServedIffFits` | 2lab/3/3-1.c:206-252 | A request gets memory iff one single free block can hold it; a compaction it triggers never serves it. A corollary of the outcomes that `AllocateMem` is proved to have. |
| `MemoryTheorems.AlgorithmThenCreate` | 2lab/3/3-1.c:322-333 | Across two turns: after menu choice 1, 2 or 3 a request that some block can serve starts at the lowest, a smallest or a largest sufficient block; after any other choice the previous policy decides. |
| `MemoryTheorems.SliceBoundary` | 2lab/3/3-1.c:219-230 | With literal numbers: a first request for 1014 of the 1024 bytes drops the other 10, one for 1013 leaves 11 free. |
| `MemoryTheorems.SizeIsFixed` | 2lab/3/3-1.c:303-320 | Setting the size has no effect once any menu entry was taken; in the first turn a positive size is taken and any other ignored. |
| `MemoryTheorems.ReportedCode` | 2lab/3/3-1.c:336-373 | The code is -1 iff there is no new process and 1 iff the new one is the only one; the pid is used up in every case. |
| `MemoryTheorems.RunSettings` | 2lab/3/3-1.c:303-373 | In every state of every run the last pid is the number of creates, served or not, the policy that of the last valid choice, and the size the positive one set in the first turn or 1024. |
| `MemoryTheorems.TurnKeeps` | 2lab/3/3-1.c:322-421 | Only a create adds a process; terminating a pid removes the process with that pid and no other; an unknown pid, a choice of algorithm or a display changes no free block. |
| `MemoryTheorems.CreateThenTerminate` | 2lab/3/3-1.c:219-231 | Creating a process and terminating it at once restores the live list, and restores the free blocks iff the fit dropped no bytes, under every policy. |
| `Blocks.CanonicalForm` | 2lab/3/3-1.c:270-286 | A coalesced list of disjoint blocks is determined up to order by the addresses it covers. |
| `MemoryTheorems.ReturnsExactly` | 2lab/3/3-1.c:206-252 | `allocate_mem` returns iff a block fits, the free bytes do not suffice, or some process is live; then one nested call is enough, otherwise no call depth is. |
| `StuckRun.RequestGetsStuck` | 2lab/3/3-1.c:162-251 | A run of seven menu entries from the initial state after which a request for 80 of 90 free bytes never returns. |
| `StuckRun.RefusedAfterCompaction` | 2lab/3/3-1.c:237-251 | A run of seven menu entries whose last one, a request for 50 of 60 free bytes with a process live, compacts, is refused, and loses the 50 bytes. |
| `MemoryTheorems.LostAccounting` | 2lab/3/3-1.c:219-251 | How lost bytes change: not at all except in a create; by at most MIN_SLICE when served; to the request plus at most MIN_SLICE when refused after compaction. |
| `MemoryTheorems.LostIsUnaccounted` | 2lab/3/3-1.c:171-223 | The lost bytes are the number of addresses that no list covers. |
| `MessageDevice.Device.constructor` | 3lab/dev/glo_pro.c:256-263 | Empty list, no bytes, all threads idle. |
| `MessageDevice.Device.BeginRead` | 3lab/dev/glo_pro.c:134-155 | A read call starts with the locked probe if non-blocking, with the wait otherwise. |
| `MessageDevice.Device.Probe` | 3lab/dev/glo_pro.c:143-152 | A non-blocking read returns -EAGAIN at once iff the list is empty, and otherwise goes on to the wait. |
| `MessageDevice.Device.LookForMessage` | 3lab/dev/glo_pro.c:154 | The wait: the reader falls asleep iff the list is empty. |
| `MessageDevice.Device.SignalRead` | 3lab/dev/glo_pro.c:154-155 | A signal in the wait: the condition is looked at once more, and the call is interrupted iff it still fails. |
| `MessageDevice.Device.TakeMessage` | 3lab/dev/glo_pro.c:157-166 | The critical section removes the head and its bytes, or finds the list empty and returns -EAGAIN. |
| `MessageDevice.Device.CopyToUser` | 3lab/dev/glo_pro.c:168-177 | The buffer gets as many bytes of the message as were asked for, or all of them if it is shorter, from its start; the rest is discarded. |
| `MessageDevice.Device.FailCopyToUser` | 3lab/dev/glo_pro.c:169-175 | A failing copy loses the message but still owes the wake. |
| `MessageDevice.Device.WakeWriteQueue` | 3lab/dev/glo_pro.c:181-182 | Every sleeping writer looks again, and the call returns. |
| `MessageDevice.Device.BeginWrite` | 3lab/dev/glo_pro.c:185-193 | Empty and oversized messages return at once. |
| `MessageDevice.Device.CheckRoom` | 3lab/dev/glo_pro.c:198-206 | The capacity check under the lock: a message that fits is admitted; one that does not gets a non-blocking caller -EAGAIN and a blocking one into the wait. |
| `MessageDevice.Device.LookForRoom` | 3lab/dev/glo_pro.c:208 | The wait: the writer falls asleep iff its message does not fit. |
| `MessageDevice.Device.SignalWrite` | 3lab/dev/glo_pro.c:208-209 | A signal in the wait interrupts the call iff the message still does not fit. |
| `MessageDevice.Device.AbortWrite` | 3lab/dev/glo_pro.c:212-219 | Failing allocation or copy ends the write without an append. |
| `MessageDevice.Device.AppendMessage` | 3lab/dev/glo_pro.c:221-224 | The message goes to the end of the list, without a second check. |
| `MessageDevice.Device.WakeReadQueue` | 3lab/dev/glo_pro.c:226-229 | Every sleeping reader looks again, and the call returns the length. |
| `MessageDevice.Device.PollMask` | 3lab/dev/glo_pro.c:232-249 | Readable iff the list is not empty, writable iff below the cap, and never neither. |
| `MessageCalls.EveryResult` | 3lab/dev/glo_pro.c:134-230 | Over every interleaving each result in the log is right for the call that got it, told from what its caller asked for: the next two rows say how. |
| `MessageCalls.ReadOutcome` | 3lab/dev/glo_pro.c:134-183 | A read that asked for `count` bytes returns the first min(count, length) bytes of the message it removed, or -EAGAIN with the list empty at that moment, or is interrupted by a signal with the list empty, or loses a removed message to a failing copy; nothing else. |
| `MessageCalls.WriteOutcome` | 3lab/dev/glo_pro.c:185-230 | A write returns the length of the message it was given, having appended it; 0 for an empty one; -EMSGSIZE above 4096 bytes; -EAGAIN only if non-blocking and not fitting under 65536; an interruption only if blocking and not fitting; the other errors only at a failing step. |
| `MessageCalls.LookOutcome` | 3lab/dev/glo_pro.c:196-210 | A writer that looks at the room is admitted iff its message fits; otherwise it returns -EAGAIN iff the call was non-blocking, and goes to the wait iff it was blocking. |
| `MessageCalls.NonblockingWriteNeverWaits` | 3lab/dev/glo_pro.c:206-209 | A writer in the wait, awake or asleep, serves a blocking call. |
| `MessageCalls.SignalEndsWait` | 3lab/dev/glo_pro.c:154-219 | A signal ends the wait, with an interruption iff the condition still fails; a failing allocation is -ENOMEM, a failing copy -EFAULT. |
| `MessageCalls.ReadAlone` | 3lab/dev/glo_pro.c:134-183 | The whole effect of one read call that nobody interleaves with: the list, the count, the result, the writers that look again. |
| `MessageCalls.WriteAlone` | 3lab/dev/glo_pro.c:185-230 | The whole effect of one write call that nobody interleaves with, for every length, room and mode. |
| `MessageCalls.PollMeans` | 3lab/dev/glo_pro.c:241-246 | Readable iff a probe would not return -EAGAIN; writable iff a message of one byte would be admitted. |
| `MessageCalls.PollOfFirstMessage` | 3lab/dev/glo_pro.c:241-246 | A device after loading is writable and not readable; with one message in the list it is both. |
| `MessageCalls.PollOfFullDevice` | 3lab/dev/glo_pro.c:241-246 | A device that holds 65536 bytes is readable and not writable. |
| `MessageSafety.RunKeepsInv` | 3lab/dev/glo_pro.c:134-230 | The invariant holds in every state of every interleaving of any number of readers and writers. |
| `MessageSafety.StepKeepsInv` | 3lab/dev/glo_pro.c:134-230 | Every atomic step keeps it. |
| `MessageTheorems.NoLostWakeups` | 3lab/dev/glo_pro.c:154-226 | A sleeping reader means an empty list or a writer that appended and has yet to wake; a sleeping writer means no room for its message or a reader that removed one and has yet to wake. |
| `MessageTheorems.NoMutualBlock` | 3lab/dev/glo_pro.c:154-209 | When no wake is pending, readers and writers are not asleep at the same time. |
| `MessageTheorems.WholeRunFifo` | 3lab/dev/glo_pro.c:157-224 | Removed followed by queued messages are the appended ones in order; the byte count is exact; each removed message belongs to exactly one read call, running, successful or faulted, and a successful one returned the start of it, as much as the count it carries; `ReadOutcome` ties that count to the caller's. |
| `MessageTheorems.WritesAccounted` | 3lab/dev/glo_pro.c:185-230 | Each appended message belongs to exactly one write call, which reports its length; with no wake outstanding that call has returned; aborted, interrupted and refused writes appended nothing. |
| `MessageTheorems.RemovalNeverUnderflows` | 3lab/dev/glo_pro.c:165 | The unsigned subtraction on removal never goes below zero. |
| `MessageTheorems.OvershootBound` | 3lab/dev/glo_pro.c:196-224 | Queued bytes plus the bytes of admitted writers never exceed MAX_BYTES + (N - 1) MAX_MSG with N writers. |
| `MessageRuns.OvershootAttained` | 3lab/dev/glo_pro.c:196-224 | For every N a run reaches exactly that many queued bytes, so the bound is exact. |
| `MessageRuns.CapHoldsIffOneWriter` | 3lab/dev/glo_pro.c:195-204 | The MAX_BYTES cap holds in all runs iff there is one writer. |
| `MessageTheorems.SingleReader` | 3lab/dev/glo_pro.c:143-162 | A single reader never sleeps in a non-blocking call and never finds the list empty after its wait. |
| `MessageRuns.NonblockingSleepsIffTwoReaders` | 3lab/dev/glo_pro.c:143-155 | A non-blocking read can be put to sleep iff there are at least two readers. |
| `MessageRuns.BlockingGivesUpIffTwoReaders` | 3lab/dev/glo_pro.c:154-162 | A blocking read can find the list empty under the lock, and so return -EAGAIN, iff there are at least two readers. |
| `MessageTheorems.PollNeverBlank` | 3lab/dev/glo_pro.c:241-248 | A device that is not readable is writable, in every reachable state. |
| `RingBuffer.ScullDevice.constructor` | 3lab/dev/globalvar.c:69-74 | Both positions at the start, flag down. |
| `RingBuffer.ScullDevice.GlobalvarRead` | 3lab/dev/globalvar.c:103-129 | The critical section of a read: bytes returned, new read position, lowered flag. |
| `RingBuffer.ScullDevice.FailCopyToUser` | 3lab/dev/globalvar.c:109-122 | A failing copy lowers the flag and moves nothing. |
| `RingBuffer.ScullDevice.FailCopyFromUser` | 3lab/dev/globalvar.c:140-144 | A failing copy may change the room at the write position and nothing else. |
| `RingBuffer.ScullDevice.GlobalvarWrite` | 3lab/dev/globalvar.c:131-154 | Bytes accepted, new contents and write position, raised flag, as the write specification says. |
| `RingBuffer.WriteRefines` | 3lab/dev/globalvar.c:135-149 | A write appends what it accepts to the stored bytes iff the ring is not full or nothing is asked for; on a full ring it replaces them all. |
| `RingBuffer.ReadRefines` | 3lab/dev/globalvar.c:110-126 | A read returns and removes the oldest stored bytes if there are any. |
| `RingBuffer.PositionsMeet` | 3lab/dev/globalvar.c:110-149 | In every run of harmless calls the positions meet iff nothing or everything is held, and everything only with both at the start of the buffer. |
| `RingBuffer.FaultRefines` | 3lab/dev/globalvar.c:140-144 | A write whose copy fails leaves the stored bytes alone iff the ring is not full or the same bytes were written again. |
| `RingBuffer.StepConserves` | 3lab/dev/globalvar.c:103-154 | A harmless call keeps returned + stored equal to accepted, and the flag up only over stored bytes. |
| `RingBuffer.HarmfulBreaks` | 3lab/dev/globalvar.c:131-154 | Any other call breaks it: a write of nothing into an empty ring, of something into a full one, or a failing copy that changes a full one. |
| `RingBuffer.RunConserves` | 3lab/dev/globalvar.c:103-154 | In every run of harmless calls, across wrap-around, bytes returned followed by bytes stored are the bytes accepted, in every state. |
| `RingBuffer.RunConservesExactly` | 3lab/dev/globalvar.c:103-154 | A run stays such a queue throughout iff each of its calls is harmless. |
| `RingBuffer.FullRingOverwritten` | 3lab/dev/globalvar.c:135-149 | The failing run: a write of one byte into a full ring leaves that byte as all that is stored. |
| `RingBuffer.EmptyWriteLetsReaderIn` | 3lab/dev/globalvar.c:131-154 | The other one: after a write of nothing a read returns a byte that nobody wrote. |
| `RingBuffer.PutTakes` | 3lab/dev/globalvar.c:135-149 | In a run of harmless calls a write takes all it is given up to the end of the 100 bytes, or, when the stored bytes wrap around, up to 99 held in all; what it takes is the start of what it was given. |
| `RingBuffer.GetReturns` | 3lab/dev/globalvar.c:112-128 | In such a run a read returns all it asks for up to what is held, or, when the stored bytes wrap around, up to the end of the buffer. |
| `RingBuffer.StrandedExactly` | 3lab/dev/globalvar.c:109-151 | In a run of harmless calls the flag is down over stored bytes iff the last read returned fewer bytes than were held and no write has come to its end since. |
| `RingBuffer.ShortReadStrands` | 3lab/dev/globalvar.c:109-124 | A run in which that happens: two bytes written, one read. |
| `RingRaces.SoundExactly` | 3lab/dev/globalvar.c:103-154 | With calls cut at the semaphore, over every interleaving of any number of readers and writers: the ring stays a queue of bytes throughout iff no write meets a full ring and no read an empty one. |
| `RingRaces.WriteIsFillAndRaise` | 3lab/dev/globalvar.c:131-154 | A write of the atomic model is a critical section and a raised flag with nothing between them, and the other way round. |
| `RingRaces.ReadIsPassAndTake` | 3lab/dev/globalvar.c:103-129 | The same for a read, returning or failing in its copy. |
| `RingRaces.TwoReadersRace` | 3lab/dev/globalvar.c:105-109 | Two readers pass the flag test for one byte, and the second returns a byte that nobody wrote. |
| `RingRaces.LateFlagRace` | 3lab/dev/globalvar.c:150-151 | One reader and one writer are enough: the flag goes up after the semaphore, when the reader has already taken the bytes. |

## Left out

- Execute: a create asks for a positive request, because the code otherwise uses a size it never set (`2lab/3/3-1.c:350`), and for one that returns, because a step has a state after it.
- NewProcess: the same.
- RunKeepsInv: pids are unbounded integers; the allocator's `int pid` would overflow after 2^31 creates. All other sums are bounded by the memory size.
- PollMask: the registration on the wait queues is left out, only the mask is modelled.
- TakeMessage: `list_del` and the copy act on a message value; node memory, `kmalloc` and `kfree` are left out.
- RunConserves: calls are atomic here, and readers wait for the flag; `RingRaces` has the interleavings. The spare last byte of the buffer, which only the log reads, is never written.
- Allocator: `malloc` failures, node lifetimes, process names, `display_mem_usage` and `do_exit`.
- `qsort`: any sort with a sorted permutation as its result; nothing is assumed about ties.
- All console and log output, menus, `scanf`, random sequences and percentages; the limits 1000 and 100 on sequence and frame numbers.
- Module loading and unloading, device registration, open and release counters of both devices.
- Liveness under a fair scheduler; spurious wake-ups other than by signals.
- `1lab`, `2lab/1`, `2lab/2`, `3lab/check`, `3lab/hello_test`, `3lab/modify_syscall` and the user programs `read.c` and `write.c`: mostly system calls, with only easy statements to make.
