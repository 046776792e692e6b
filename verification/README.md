# Verified models of four operating-systems programs

Dafny models, with proofs of what they do on every input, run or
interleaving. Verify with `dafny verify dfyconfig.toml`.

**The paging simulator (A3).** `Simulator` is the pager and its client: a two-level
page table, a coremap, physical memory, a swap file with a bitmap of slots, and a
replacement policy. `FlatMemory` is what the simulated program should see: a page keeps
its first address and counts its writes. `LossyMemory` is what it does see. When the swap
file is full the program prints a message and goes on; the page it could not write is
lost, and comes back, if it is referenced again, with the contents of the page that makes
room for it. `Paging` and `Ties` have the invariant that ties page table, frames and swap
file to the lossy memory between accesses, `Access` and `Serving` what one access does,
and `Losses` when lossy and flat memory look the same.
`LruList`, `FifoQueue` and `ClockHand` are the data structures of the policies;
`LruPolicy`, `FifoPolicy` and `ClockPolicy` are the same policies on page numbers, with
the theorems about whole runs; `Residents`, `PolicySteps` and `Runs` connect the two.
Addresses need not be page-aligned: an access then passes the check exactly when it uses
the address that first touched the page.

**The intersection (A2).** `Intersection` is a transition system with a step for every
lock operation, wait, signal and update of the eight threads; `complete_cross` is two
steps. `Safety` has the invariant, `Progress` the absence of deadlock and the measure,
`Crossings` the theorems about runs. `Lanes` and `Turns` have the helper functions as
methods on arrays, proved against the functions the transition system uses. Any capacity
above zero is covered.

**Blocked matrix multiplication (A3/traceprogs).** `BlockedProgram` has both programs
with their loops, `Blocks` the two storage layouts, `Products` the sums. Numbers are any
type with a zero, an addition and a multiplication: both programs do the same operations
in the same order, so the results are equal even where the operations round.

**The system call interceptor (A1).** `Monitoring` has the pid lists and what they mean,
a finite set of pids or the complement of one; `KernelModule` the requests, process exit,
calls, loading and unloading; `PatchProtocol` the two-lock protocol under any
interleaving, and `PatchRequests` what its requests do there.

Where code and documentation differ, the model follows the code:

- `swap_pagein` returns 0, success, for a read that reads nothing (A3/swap.c:207-211).
- Starting to monitor all pids is refused as busy under a blacklist that is not empty,
  although the pids on it are not monitored (A1/interceptor.c:542-548).
- The interceptor logs the calls of blacklisted processes too: it does not look at the
  list when all pids are monitored (A1/interceptor.c:325-333).
- After the exit of a blacklisted process its pid is no longer blacklisted
  (A1/interceptor.c:160-179).
- Unloading with exit_group intercepted leaves the module's handler in the table
  (A1/interceptor.c:737-742).

## Model

| member | source | states |
|---|---|---|
| Simulator.Simulate | A3/sim.c:86-154 | the program from start to end, for any trace, memory and swap size and policy: every address check passes exactly when each page is always referenced by one address and no page is referenced after it was lost, and in the first case the observations are those of flat memory exactly in the second; with a slot for every page touched they always are; as many pages are lost as more were evicted than there are slots; victims and misses are the policy's own; the five counters add up, and the dirty evictions are those of a page stored to, modified or first touched since it came in |
| Simulator.Simulator.ReplayTrace | A3/sim.c:66-83 | for every trace, memory size, number of swap slots and policy, full swap file or not: the memory, every observation and the five counters are those of LossyMemory run on the trace and the pages evicted; each eviction was due; under LRU, FIFO and Clock the resident pages are at every reference those of the policy run on page numbers |
| Simulator.Simulator.AccessMem | A3/sim.c:49-64 | one reference shows what LossyMemory shows, a page that is gone included, takes the memory and the policy one step, and ticks the counters for hits, misses, clean and dirty evictions; the entry is valid, and dirty after an S or an M, and else if it was or if the page is new |
| Simulator.Simulator.FindPhyspage | A3/pagetable.c:174-269 | the position returned is the frame of the page, which is valid and, for a write, dirty; the memory has fetched the page, the policy took one step, and each counter rose as hit, miss and the victim's dirty flag say |
| Simulator.Simulator.AllocateFrame | A3/pagetable.c:26-90 | the least free frame, or the victim of the policy, whose page goes to its slot, a new slot, or none when none is free; the frame is then filled from the new page's slot if it has one; the clean or the dirty eviction counter rises with the victim's flag; rand takes the frame random() gives modulo the memory size |
| Simulator.Simulator.WriteVictim | A3/pagetable.c:56-77 | the victim's entry and the swap file afterwards, the slot chosen, and that it has none exactly when it needed one and every slot was used |
| Simulator.Simulator.Fault | A3/pagetable.c:213-225 | both miss branches: frame, entry flags and contents of a new page and of a page on swap |
| Simulator.Simulator.Locate | A3/pagetable.c:213-236 | hit, first touch and page-in, told apart by the entry; the assertion of the hit branch holds; the five counters |
| Simulator.Simulator.EvictFcn | A3/sim.c:21-32 | rand, LRU, FIFO or Clock returns a frame in range, and which one, in terms of the order it keeps |
| Simulator.MeetNullLink | A3/lru.c:21-35 | under LRU with one frame, every trace that touches two pages comes to a reference whose page is not resident while the frame is in use and the link lru_evict follows is null |
| Simulator.Simulator.OneFrame | A3/lru.c:21-35 | so with one frame a page can be served if and only if the frame is free or has that page |
| Simulator.Simulator.EnsureTable | A3/pagetable.c:185-188 | allocates the second-level table of a page, all entries empty, if there is none |
| Access.CallKeeps | A3/pagetable.c:213-262 | a whole call of find_physpage keeps the invariant; the page arrives with its own contents, new ones, or, if its own are gone, those of the victim |
| Access.CallFollows | A3/pagetable.c:213-262 | a whole call is one step of LRU, FIFO or Clock on page numbers, hit or miss, free frame or victim |
| Ties.CallFate | A3/pagetable.c:56-77 | what a call does to every entry: the page referenced is marked; the victim is on swap, at its own slot, else at a free one, else at none; no other entry changes but for its reference bit |
| Ties.FullMeansEvicted | A3/swap.c:222-227 | no slot is free exactly when as many pages as there are slots have been evicted |
| Ties.TieKeeps | A3/pagetable.c:56-80 | flags and slots of all entries stay those of the memory: which pages are resident, dirty, and among the first ever evicted, which have the slots |
| Ties.GoneAgrees | A3/pagetable.c:64-71 | between accesses a page is gone in the memory exactly when its entry is on swap without a slot, and resident exactly when its entry is valid |
| Ties.CleanEviction | A3/pagetable.c:59-77 | evicting a clean page leaves swap file and bitmap as they are: its slot has its bytes already, or it has no slot and gets none |
| Serving.CallServes | A3/pagetable.c:213-262 | a whole call, from its steps: invariant, tie, memory and policy |
| Serving.AccessedEntry | A3/pagetable.c:213-258 | the valid and dirty flags of a page after a reference of each kind, from its flags before |
| Losses.ChecksPass | A3/sim.c:54-56 | over any run of any trace: every address check passes if and only if each page is always referenced by one address and no page is referenced after it was lost |
| Losses.FlatExactly | A3/pagetable.c:59-80 | over any run: the observations are those of flat memory if and only if no page is referenced after it was lost, when each page has one address |
| Losses.UnharmedIsFlat | A3/pagetable.c:59-80 | without that condition on addresses: if no lost page is referenced, contents and observations are those of flat memory |
| Losses.HarmShows | A3/pagetable.c:59-80 | in any run the first reference to a page that is gone fails the address check, whatever address it uses: the page has the contents of the one that made room for it |
| Losses.HowManyLost | A3/pagetable.c:59-62 | as many pages are lost as more pages were evicted than there are slots |
| Losses.LostWasGone | A3/pagetable.c:59-62 | every page counted as lost was at some moment touched, not resident, and without a slot |
| Losses.GoneIsLost | A3/pagetable.c:59-62 | in every state of a run, a page is gone exactly when it is one of those lost and not resident |
| Losses.EnoughSlots | A3/swap.c:222-227 | with a slot for every page ever evicted no reference finds its page gone |
| Losses.FewPages | A3/swap.c:222-227 | which is so when the trace touches no more pages than there are slots |
| Losses.Balance | A3/pagetable.c:71-77 | references are hits and misses; misses are pages resident and evictions, clean and dirty |
| Losses.DirtyMeaning | A3/pagetable.c:219-258 | from the trace and the evictions alone: a resident page is dirty exactly when, since it last came in, it was stored to or modified, or touched for the first time ever |
| Losses.EvictionCounts | A3/pagetable.c:71-77 | the dirty counter is the number of evictions of such pages, the clean counter that of all others |
| Losses.SmallestLoss | A3/pagetable.c:59-80 | a trace on which it fails: one frame, no slot, pages a, b, a; the third reference fails the address check |
| Losses.OnlyABA | A3/pagetable.c:53-80 | every run of that trace with one frame and no slot evicts the same pages, so all fail |
| Paging.EvictKeeps | A3/pagetable.c:56-77 | an eviction keeps the contents of all pages that are not gone, the victim's in its slot if it has one, and one slot for each page |
| Paging.MissKeeps | A3/pagetable.c:213-225 | a miss gives the page a frame with its own contents, fresh or read back, or those of the victim if its own are gone, and keeps all others |
| Paging.BumpKeeps | A3/sim.c:58-61 | incrementing the version word of a dirty resident page counts one write to it and keeps all other pages |
| Paging.Bijection | A3/pagetable.c:254-262 | between accesses frames in use and valid entries correspond one to one, no entry is valid and on swap, and no page is on swap while a frame is free |
| FlatMemory.RunMeaning | A3/sim.c:49-64 | flat memory without recursion: a page has the address that first touched it and the number of writes to it |
| FlatMemory.LogMeaning | A3/sim.c:54-61 | what a reference sees: whether its address is the first one of its page, and the number of earlier writes, modulo the word |
| FlatMemory.VersionCounts | A3/sim.c:58-61 | the version seen is the number of S and M references to the 4096 bytes of the page so far, modulo 2^32 |
| FlatMemory.VersionGrows | A3/sim.c:58-61 | of two references to a page in a row, the second sees one version more exactly if the first is an S or an M |
| Runs.NoSecondMiss | A3/pagetable.c:213-262 | in any stretch of a run over at most memsize different pages, no page misses twice, under LRU, FIFO and Clock |
| Runs.LruMissesFall | A3/lru.c:21-116 | the misses of an LRU run never rise with memory |
| Runs.RanResident | A3/pagetable.c:213-237 | the pages resident in the pager are those the policy has after the same references |
| Runs.AgreedVictims | A3/pagetable.c:53-80 | the page evicted for each reference is the one the policy drops, a function of the page numbers and the memory size |
| Runs.AgreedMisses | A3/pagetable.c:213-240 | the hits and misses counted are those of the policy |
| Runs.EvictedMeaning | A3/pagetable.c:53-80 | a page was evicted exactly when at some reference the policy has it before and not after |
| Runs.ReplayedMemory | A3/sim.c:49-83 | for a replay by the pager: when it shows flat memory, and how many pages are lost |
| LruPolicy.RecencyOrder | A3/lru.c:37-116 | the recency list has exactly the pages referenced, ordered by last reference |
| LruPolicy.StackProperty | A3/lru.c:21-116 | with m frames the resident pages are the m most recently referenced |
| LruPolicy.Inclusion | A3/lru.c:21-116 | pages resident with m frames are resident with more, after every trace |
| LruPolicy.OnlyFirstMisses | A3/lru.c:21-116 | from any state, in a stretch over at most m pages only a first reference can miss |
| FifoPolicy.NoSecondMiss | A3/fifo.c:21-80 | from any state, in a stretch over at most m pages no page misses twice |
| FifoPolicy.ResidentsAreLastLoads | A3/fifo.c:21-80 | with m frames the resident pages are the last m pages loaded, in order |
| FifoPolicy.LoadOrder | A3/fifo.c:21-80 | the list is ordered by the reference that last loaded each page |
| ClockPolicy.NoSecondMiss | A3/clock.c:22-47 | the same for Clock |
| ClockPolicy.SweepKeepsGuard | A3/clock.c:27-44 | the two-revolutions argument: what guards a page loaded in the stretch survives any sweep of the hand |
| ClockPolicy.SweepStops | A3/clock.c:22-47 | the hand stops at the first frame with a clear bit, or where it started if none is clear, clears exactly the bits it passed, and inspects at most m + 1 frames |
| ClockPolicy.StepMarks | A3/pagetable.c:254-258 | a reference sets the bit of its page, and a hit does nothing else |
| ClockPolicy.SecondChance | A3/clock.c:22-47 | a run on which a reference saves a page and one loaded later is evicted instead |
| LruList.LruList.Evict | A3/lru.c:21-35 | takes the last frame off a list that stays consistently linked both ways |
| LruList.LruList.Ref | A3/lru.c:42-116 | moves or adds the frame to the top in each of the five cases; the assertions hold |
| LruList.LruList.EvictNeedsTwo | A3/lru.c:23-28 | the victim has a frame above it exactly when the list has two frames |
| FifoQueue.FifoQueue.Evict | A3/fifo.c:21-36 | takes the frame loaded earliest; the rest of the chain stays in load order |
| FifoQueue.FifoQueue.Ref | A3/fifo.c:41-80 | a frame not queued goes to the end; a hit changes nothing, a self-link of the youngest apart |
| ClockHand.ClockHand.Evict | A3/clock.c:22-47 | the loop ends, returns the frame inspected last, and leaves the bits and the hand as the sweep says, in the number of visits it says |
| Residents.LruLoad | A3/lru.c:42-80 | loading a page into a frame is the LRU step on pages |
| Residents.FifoLoad | A3/fifo.c:41-80 | loading a page into a frame is the FIFO step on pages |
| Residents.ClockEvict | A3/clock.c:22-47 | replacing the page of the victim is the Clock step on pages |
| Bitmap.Bitmap.constructor | A3/swap.c:28-62 | no slot is used, and the padding bits past nbits are set |
| Bitmap.Bitmap.Alloc | A3/swap.c:64-88 | takes the least free slot and fails exactly when all are used; its assertions hold |
| Bitmap.Bitmap.Mark | A3/swap.c:100-111 | adds one slot to the used ones |
| Bitmap.Bitmap.Unmark | A3/swap.c:113-124 | takes one slot from the used ones |
| Bitmap.Bitmap.Test | A3/swap.c:127-135 | tells whether a slot is used; an index in the padding of the last word reads as used |
| Bitmap.FullWord | A3/swap.c:72-73 | comparing a word with all ones decides whether one of its bits is clear |
| Bitmap.ChangeOneSlot | A3/swap.c:90-98 | setting or clearing one mask bit changes one slot and keeps the padding |
| SwapSpace.SwapSpace.PageIn | A3/swap.c:188-214 | the result and the frame afterwards, a failed seek and failed and short reads included; zero is returned for a whole page and for an empty read |
| SwapSpace.SwapSpace.PageOut | A3/swap.c:222-256 | the page goes to its slot or the least free one; fails exactly when it needs a slot and all are used, and then changes nothing, or when the seek fails or the write is short, and then keeps the slot it took, with the bytes that were written |
| SwapSpace.ReadOtherSlot | A3/swap.c:236-249 | writing one slot leaves the pages in the others alone |
| SwapSpace.FileBytes | A3/swap.c:236-249 | reads and writes of the swap file, byte by byte and at any position |
| PageTable.SetEntryFacts | A3/pagetable.h:40-41 | a store through an entry pointer changes the entry of that page and no other |
| PteWord.BitByBit | A3/pagetable.h:13-16 | on the word of an entry, or and exclusive or with a flag set and flip that bit, and leave the other flags and the frame number |
| PteWord.WordLayout | A3/pagetable.h:10-16 | the word of an entry: flags 1, 2, 4 and 8, the frame number from bit twelve on |
| PteWord.FieldUpdates | A3/pagetable.h:53-57 | so on a decoded entry they are updates of one field |
| PteWord.ShiftedNumber | A3/pagetable.c:218-224 | a shifted frame number is the word of an entry for that frame with every flag clear |
| PteWord.Mark | A3/pagetable.c:254-258 | three or's on the word make the entry valid, referenced and, for a write, dirty |
| PteWord.SwapOut | A3/pagetable.c:64-71 | or and exclusive or put the entry on swap and, if it was valid, make it invalid |
| PageBytes.FreshPageWritten | A3/pagetable.c:147-159 | clearing the frame and storing the address at offset 4 makes a page with version 0 and that address |
| PageBytes.PageLayout | A3/pagetable.c:150-158 | version and address of a page from its bytes 0 to 3 and 4 to 11 |
| PageBytes.BumpedReads | A3/sim.c:58-61 | incrementing the version word, with wrap-around, leaves the address |
| Turns.PathIsRoute | A2/cars.c:308-439 | a path has as many quadrants as the turn says, in strictly increasing order, and they are exactly those on the way, counterclockwise, up to the way out |
| Turns.TurnReachesExit | A2/cars.c:406-424 | the turn is the number of quadrants it takes to get to the quadrant of the way out |
| Turns.TurnRejects | A2/cars.c:409-412 | no turn exactly for directions out of range |
| Turns.BuildPathArray | A2/cars.c:308-398 | the array built is the table row |
| Lanes.Lane.WriteToBuf | A2/cars.c:105-114 | appends the first waiting car to the buffer's contents, or changes nothing when the buffer is full |
| Lanes.Lane.ReadFromBuf | A2/cars.c:123-133 | returns the oldest car, and once it is counted out the contents are the rest; none when the buffer is empty |
| Intersection.CompleteCross | A2/cars.c:166-172 | run undisturbed it takes the out lists where the two steps of the transition system take them; from each direction, the cars crossed are those before and then this car |
| Lanes.ParseSchedule | A2/cars.c:43-67 | each lane gets the cars of its direction, last line first, and their number |
| Lanes.WriteAppends | A2/cars.c:107-112 | in a circular buffer of any capacity a write appends to the contents |
| Lanes.ReadTakes | A2/cars.c:125-130 | and a read takes the oldest |
| Safety.StepKeeps | A2/cars.c:182-299 | every step of every thread, and every spurious wakeup, keeps the invariant: lock owners, buffer counts, reasons to wait, quadrant owners, list snapshots |
| Safety.MutualExclusion | A2/cars.c:269-287 | no two threads are inside complete_cross for the same list |
| Safety.CrossOut | A2/cars.c:166-172 | so what a thread read of the list is still there when it writes |
| Safety.CrossHeld | A2/cars.c:143-158 | the quadrants locked are at every step exactly the part of the paths in use |
| Progress.InsideMoves | A2/cars.c:195-258 | the thread that holds a lane lock can always go on: the write finds a car and room, the read finds a car |
| Progress.SomeoneCrosses | A2/cars.c:269-287 | from a thread waiting for a quadrant one gets, through later and later quadrants, to a thread in the intersection that can move |
| Progress.SomeoneMoves | A2/cars.c:182-299 | no deadlock and no lost wakeup: unless all threads are done, one can take a step that is not a spurious wakeup |
| Progress.MeasureFalls | A2/cars.c:182-299 | each such step brings a measure down |
| Progress.WakeMeasure | A2/cars.c:195-246 | a spurious wakeup raises that measure by exactly two: the thread has to take its lock again and wait again |
| Progress.FreedIsUnused | A2/cars.c:295-296 | when the buffer is freed nobody uses it any more |
| Crossings.Reached | A2/cars.c:182-299 | every state of every run has the invariant and the ledger: the cars crossed and the cars pending of a lane are, in order, those it started with |
| Crossings.StepLedger | A2/cars.c:105-172 | every step keeps the ledger |
| Crossings.RunsEnd | A2/cars.c:182-299 | a run with k spurious wakeups on a schedule of c cars has at most 35 c + 120 + 3 k steps, whatever its interleaving |
| Crossings.WakeupsMeaning | A2/cars.c:195-246 | where k counts the steps of threads that wait |
| Crossings.AllCross | A2/cars.c:182-299 | a run that cannot go on has ended, and each list of crossed cars holds, from each direction, exactly the cars of the schedule in the order of its lines; passed equals inc |
| Crossings.EveryCarOnce | A2/cars.c:182-299 | and every car is in the list of its way out as often as in the schedule, and in no other |
| Crossings.Finishes | A2/cars.c:182-299 | every run, spurious wakeups or not, can be continued, without any more of them, until all threads are done |
| Crossings.StartExists | A2/cars.c:43-96 | every schedule has a start, for any capacity above zero |
| Blocks.ToPosFormula | A3/traceprogs/blocked.c:37-46 | where entry (i, j) is in blocked storage |
| Blocks.PosInverse | A3/traceprogs/blocked.c:249-319 | the two position maps are inverse permutations |
| Blocks.Conversions | A3/traceprogs/blocked.c:249-319 | each conversion of a whole matrix undoes the other |
| Products.SameSum | A3/traceprogs/blocked.c:193-223 | the sum taken block by block is the sum, with the same operations in the same order |
| Products.BlockedProduct | A3/traceprogs/blocked.c:214-223 | multiplying blocked matrices block by block gives the blocked product |
| Products.RawProduct | A3/traceprogs/blocked.c:30-33 | what the blocked program computes from any two arrays, converted or not |
| BlockedProgram.MatMult | A3/traceprogs/matmul.c:136-146 | the triple loop computes the product |
| BlockedProgram.ToBlocked | A3/traceprogs/blocked.c:249-279 | the pointer-bumping loops compute the conversion |
| BlockedProgram.FromBlocked | A3/traceprogs/blocked.c:290-319 | and the inverse conversion |
| BlockedProgram.ZeroC | A3/traceprogs/blocked.c:172-176 | zeroes one block and leaves all others |
| BlockedProgram.MultAdd | A3/traceprogs/blocked.c:193-204 | adds to every entry of one block the terms of one pair of blocks, and leaves all others |
| BlockedProgram.BlockedMatMult | A3/traceprogs/blocked.c:214-223 | computes, from matrices in blocked storage, the block by block product |
| BlockedProgram.MultiplyThroughBlocks | A3/traceprogs/blocked.c:107-118 | converting, multiplying block by block and converting back leaves what the standard algorithm computes |
| Monitoring.Entry.StartMonitoring | A1/interceptor.c:532-593 | in all three modes: busy exactly for members, no memory exactly when a list must grow, otherwise the set grows by the pid or to everybody; failures change nothing; monitoring everybody is refused exactly under a blacklist; lists stay free of duplicates and of 0 |
| Monitoring.Entry.StopMonitoring | A1/interceptor.c:618-658 | invalid exactly for pids that are not members, otherwise the set shrinks by the pid or to nobody, and the list and mode with it: stopping everybody empties the list and ends monitoring |
| Monitoring.Entry.DelPid | A1/interceptor.c:154-183 | the list no longer mentions the pid; afterwards the pid is a member exactly where monitoring is by blacklist, and other pids are as before |
| Monitoring.Entry.DelPidSysc | A1/interceptor.c:123-148 | takes one node off the list, and the mode with the last one |
| Monitoring.Entry.Logs | A1/interceptor.c:312-346 | the interceptor logs exactly the calls of members, and of everybody under a blacklist; this is the set of monitored pids exactly except for a pid on the blacklist |
| Monitoring.StartStop | A1/interceptor.c:511-659 | for one pid above zero, stopping undoes starting (stopping everybody does not undo starting everybody: the earlier list is gone) |
| Monitoring.NoInterference | A1/interceptor.c:427-662 | what becomes of one system call depends only on the requests that name it, and on exits |
| Monitoring.ServedOk | A1/interceptor.c:496-497 | after any requests a system call that is not intercepted monitors nobody |
| Monitoring.Refusals | A1/interceptor.c:427-445 | requests refused whatever the state: commands and system calls out of range, callers that are not root, pids that are negative, missing, or another owner's |
| Monitoring.RefusedChangesNothing | A1/interceptor.c:427-662 | a request that is refused changes nothing |
| Monitoring.InterceptRequest | A1/interceptor.c:434-471 | root's request to intercept: busy if intercepted, and intercepted afterwards |
| Monitoring.ReleaseRequest | A1/interceptor.c:474-507 | root's request to release: invalid unless intercepted, and nobody is monitored afterwards |
| Monitoring.StartRequest | A1/interceptor.c:511-595 | a permitted start: which answer, who is monitored afterwards, and that no other pid changes |
| Monitoring.StopRequest | A1/interceptor.c:598-659 | a permitted stop: which answer, who is monitored afterwards, nobody after stopping everybody |
| Monitoring.OutOfMemory | A1/interceptor.c:567-593 | memory is asked for exactly to lengthen a list, by a permitted request |
| Monitoring.OnlyRootIntercepts | A1/interceptor.c:442-485 | any sequence of requests by callers that are not root intercepts and releases nothing |
| Monitoring.OthersCannotMonitor | A1/interceptor.c:519-626 | any sequence of requests by others than root and a pid's owner leaves it monitored or not as it was, and all pids too |
| Monitoring.InterceptedHistory | A1/interceptor.c:427-507 | after any requests a system call is intercepted exactly when the last granted intercept or release was an intercept |
| Monitoring.MemberHistory | A1/interceptor.c:154-662 | after any requests a pid is monitored exactly as the last granted request about it, or its exit, says |
| KernelModule.KernelModule.MySyscall | A1/interceptor.c:427-662 | the answer to every request, valid or not, with the checks in the program's order, and the state after it; what it writes to the system call table, nothing unless root intercepts or releases |
| KernelModule.KernelModule.ServeRequests | A1/interceptor.c:427-662 | over any sequence of requests and exits, answers and state are those of the sets of pids; the table has the interceptor exactly at the marked entries, and every call still gets to its handler |
| KernelModule.KernelModule.MyExitGroup | A1/interceptor.c:154-183 | no list mentions the pid afterwards |
| KernelModule.KernelModule.SystemCall | A1/interceptor.c:312-353 | every call gets to the handler it would get to without interception, and which calls are logged |
| KernelModule.KernelModule.Unload | A1/interceptor.c:729-749 | the table before loading is restored if and only if exit_group is not intercepted at that moment |
| KernelModule.KernelModule.UnloadIntercepted | A1/interceptor.c:737-742 | the input on which it is not: intercepting exit_group and unloading leaves a handler that is not the earlier one |
| PatchProtocol.StepKeeps | A1/interceptor.c:448-507 | every step of every interleaving of intercepts, releases and calls keeps the invariant |
| PatchProtocol.Reachable | A1/interceptor.c:448-507 | so every state of every run, with any number of threads, has it |
| PatchProtocol.CallsReachOriginal | A1/interceptor.c:312-353 | every call reaches the handler that was there before interception |
| PatchProtocol.SavedIsOriginal | A1/interceptor.c:459-460 | the saved handler is never the interceptor |
| PatchProtocol.QuietMeansAgreed | A1/interceptor.c:455-503 | with both locks free an entry is the interceptor exactly when it is marked |
| PatchProtocol.SomeoneMoves | A1/interceptor.c:448-507 | the two locks never deadlock |
| PatchRequests.InterceptCheck | A1/interceptor.c:451-455 | the check of an intercept: refused exactly if the flag is set; set afterwards, and nothing else changed |
| PatchRequests.ReleaseCheck | A1/interceptor.c:490-495 | the check of a release: refused exactly if the flag is clear; clear afterwards |
| PatchRequests.IdleBegins | A1/interceptor.c:312-507 | an idle thread can intercept, release and call; a call finds what the table has |
| PatchRequests.FlagHistory | A1/interceptor.c:448-507 | in any interleaving the flag is set exactly when the last request checked was an intercept |
| PatchRequests.TableHistory | A1/interceptor.c:448-507 | so with both locks free the interceptor is in the table exactly then, and else the original handler |
| PatchRequests.InterceptDone | A1/interceptor.c:448-471 | in any interleaving an intercept, from start to end, checks once, is refused and changes nothing or sets the flag and later writes the interceptor over a saved original |
| PatchRequests.ReleaseDone | A1/interceptor.c:487-507 | in any interleaving a release checks once, is refused and changes nothing or clears the flag and later writes the original handler back |
| PatchRequests.CallDone | A1/interceptor.c:312-353 | in any interleaving a call that ends has just reached the original handler |
| PatchRequests.InterceptAlone | A1/interceptor.c:448-471 | the whole state after an intercept that runs alone |
| PatchRequests.ReleaseAlone | A1/interceptor.c:487-507 | the whole state after a release that runs alone |
| PatchRequests.AloneEnds | A1/interceptor.c:312-507 | from any reachable state in which no other thread has a lock, a thread alone ends what it does within seven steps |

## Left out

- The opt policy: it writes through a null node and reads an index before setting it.
- Losses.FlatExactly: for a trace with several addresses for a page, whose checks fail in
  flat memory too, only one direction is stated for the whole log (Losses.UnharmedIsFlat);
  the checks themselves are exact for every trace (Losses.ChecksPass).
- A4, the file system exercises, and the trace reduction script.
- Parsing of traces and schedules, command lines and printing: a trace or schedule is the
  sequence of its lines.
- Directions outside 0 to 3: an in direction indexes past the lanes (A2/cars.c:60), an
  out direction ends the program (A2/cars.c:409-412).
- Safety.CrossHeld: the quadrant locks are four different locks; the program indexes its
  array of four with 1 to 4 (A2/cars.c:149, A2/traffic.h:80), so that the lock of quadrant
  four lies in the memory of the first lane, which the model does not capture.
- Failing malloc and pthread calls; kmalloc failing is modelled. A failed seek, read or
  write is modelled in SwapSpace, but in the pager these calls succeed.
- Simulator.Simulator.constructor: memory of 1 to 2^20 frames, the range of a frame number
  in an entry.
- Simulator.Simulator.EvictFcn: the opt row of the table of policies; and LRU needs two
  frames to evict, since lru_evict follows a null pointer with one
  (LruList.LruList.EvictNeedsTwo), so with one frame a trace under LRU has at most one
  page; on any other it gets to that pointer (Simulator.MeetNullLink).
- Simulator.Simulator.AccessMem: addresses below 2^36, the program's own limit; counters
  and swap offsets are unbounded, the version word wraps at 2^32.
- The frame word of a page table entry is kept decoded between the operations; each of the
  program's operations on it is done on the word, in PteWord. Links between frames are
  arrays of the policy that uses them, where the program has them in the coremap.
- The `next` pointers of cars and the nodes of pid lists: a chain is a sequence. Memory
  freed and its reuse is left out, but for the lane buffer (Progress.FreedIsUnused).
- Kernel page protection, log output, credentials (an input of each request), and
  preemption inside a request in KernelModule, which PatchProtocol covers for the locks.
- PatchProtocol.Reachable: memory is sequentially consistent, and the pid lists, which
  are only touched under my_table_lock, are not part of that model; the unlocked del_pid
  of an exiting process is one step of KernelModule.
- KernelModule.KernelModule.MyExitGroup: for a process other than 0, as exiting processes
  are.
- BlockedProgram.MultiplyThroughBlocks: the block size divides the order, as the program
  demands of its user.
- Timing, the padding of matrix records, and the random or typed-in matrices.
