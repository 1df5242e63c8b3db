# Timer engines: model and proofs

Two timer engines are modelled, both in C, and their central promises are proved for all
inputs, all runs and all interleavings.

**The hashed timing wheel** (`ttimer/tdengine_old.c`). A delay becomes a pair of slot and
remaining cycles; every period visits one slot, fires the timers at the front of its
sorted list that have no cycle left, decrements the others, and frees the fired blocks to a
ring-buffer pool. No deadline is stored anywhere. The model gives each entry the period in
which it will be reached (`Deadlines.FireTime`), reads the slot lists as a flat set of
timers with absolute deadlines (`DeadlineStore.Store`), and shows that `tmrReset` and
`tmrProcessList` do to that set what a caller expects. On top of it stand the results on
whole runs: each timer is reported exactly once, on time under an exact condition, and
every report is accounted for. Below it stand the C data structures: intrusive doubly
linked lists in pool memory, the ring of free blocks and the address arithmetic, as
classes whose methods are proved to compute the functions of the model.

**The concurrent timer store** (`ttimer/timer.c`). Hash chains under compare-exchange spin
locks, three wheels under mutexes, and 8-bit atomic reference counts shared between map,
wheels and borrowers. The model is a transition system with a program counter per thread,
one step per atomic operation, plain write or mutex section. An inductive invariant holds
in every interleaving; from it follow safe reclamation, mutual exclusion, the refinement of
a finite map, the outcome of racing removals, and what each whole call does with the
arguments it was given. `StoreOnMemory` carries the system down
to pointers: in every interleaving the memory that the writes of the steps produce spells
out the chains, slot lists and counters of the state. The functions themselves, the id
generator and the slot arithmetic are methods of classes on memory.

## Where to look

| files | content |
|---|---|
| `CInt.dfy`, `Sequences.dfy` | C integer conversions and operators, arithmetic facts; sequences |
| `Deadlines.dfy`, `ExactExpiry.dfy` | when an entry fires, and for which delays that is on time |
| `WheelModel.dfy`, `WheelInvariant.dfy` | the wheel on values, and what every operation keeps |
| `DeadlineStore.dfy`, `TimerRuns.dfy`, `TickDivider.dfy` | refinement of a deadline set, whole runs, real time |
| `MemPool.dfy`, `ListMemory.dfy`, `TmrController.dfy` | pool, lists in memory, the controller class |
| `StoreModel.dfy`, `StoreInvariant.dfy` | the transition system and its invariant |
| `StoreSteps.dfy`, `StoreFieldSteps.dfy`, `StoreChainSteps.dfy`, `StoreWheelSteps.dfy`, `StoreRuns.dfy` | every step keeps the invariant |
| `StoreLifetime.dfy`, `StoreLocking.dfy`, `StoreMap.dfy`, `StoreWheelRace.dfy`, `StoreSafety.dfy` | what follows from it |
| `StoreCalls.dfy` | whole calls of the store, from their arguments to their effect |
| `StoreMemory.dfy`, `TimerTables.dfy`, `StoreOnMemory.dfy` | chains and slot lists in memory, the store class, the steps of all threads on memory |
| `TimerIds.dfy`, `WheelChoice.dfy` | ids, wheel choice and slot arithmetic |

Every lemma cited as a result holds for all values of its parameters. Where the code does
not keep a promise, the exact condition under which it does is proved, for most together
with an input that breaks it: punctual expiry (`ExactIffArmsExactly`), firing order
(`FiringOrderExactly`), earliness in milliseconds (`EarlinessExactly`), accepted addresses
(`FreeAcceptsExactly`), the order of the pool (`FifoExactly`), the width of the reference
count (`DecrementFreesHeldTimer`), the double read in `removeFromWheel`
(`SecondReadIsSafeExactly`), these last two over whole runs (`InvHoldsExactly`), and
rounding to a scan (`RoundsUpToFirstScan`).

In the timing wheel a critical section runs from lock to unlock of the controller's mutex,
so runs are sequences of calls. `now` and `stamp` in the model are history: an unwrapped
period number and a count of armings. A timer is identified by its block, so a recycled
block is the new timer. In the store, `holders`, `added`, `links` and `wins` of a timer are
history. The first condition of each step there is the program counter; the others are
what callers must respect: use a timer only while holding a reference to it or having just
allocated it, add it to the map only while it is in no chain and no wheel and nobody is at
work on it, give it an id that no timer in use has, and do not let `addToWheel` overlap with
`addTimer` or `removeFromWheel` on the same timer.
`StoreLocking.NeverStuck` shows that these conditions never hold up a thread in the middle
of an operation. What the code itself fails to check makes a step unsafe: a decrement of
a wrapped counter, and the second read of a wheel that another removal has cleared. Results
on runs of the store are about runs of safe steps (`StoreRuns.Legal`), and
`StoreRuns.InvHoldsExactly` shows that no other runs keep the invariant.

## Model

| member | source | states |
|---|---|---|
| `Deadlines.FireTimeCountsVisits` | ttimer/tdengine_old.c:78-111 | The meaning of the deadline that nothing in the C state stores: for every period f, the entry fires in f if and only if f visits its slot after exactly as many visits as the entry has cycles (none, if the count is negative). |
| `Deadlines.WaitLands` | ttimer/tdengine_old.c:78-79 | The computed wait from any period, counter wrap included, ends on a visit of the slot. |
| `Deadlines.WaitIsFirstVisit` | ttimer/tdengine_old.c:78-79 | No earlier period visits the slot. |
| `Deadlines.FireTimeStep` | ttimer/tdengine_old.c:80-111 | One period later every entry of the wheel that is not due still has the same firing time, whether its cycle was decremented (slot visited) or not; and it is due now exactly if its slot is visited with no cycle left. |
| `Deadlines.FireTimeNoWrap` | ttimer/tdengine_old.c:78-111 | Closed form while the 32-bit counter does not wrap: first visit of the slot plus one turn of the wheel per cycle. |
| `Deadlines.FiresAfterWrap` | ttimer/tdengine_old.c:78-111 | Closed form across the wrap: every visit before it uses up one cycle, the visits after it count from 0. |
| `ExactExpiry.ExactIffArmsExactly` | ttimer/tdengine_old.c:231-272 | For every arming period and every 32-bit delay: the timer fires `period` periods after the call if and only if the delay is not negative, its cycle count fits a `short`, and the counter either does not wrap before the deadline or visits the slot as often as without the wrap. |
| `ExactExpiry.PowerOfTwoWheelIgnoresWrap` | ttimer/tdengine_old.c:266-272 | On a wheel whose size divides 2^32 that condition is just that the cycle count fits a `short`. |
| `ExactExpiry.FireTimeGrows` | ttimer/tdengine_old.c:80-94 | More cycles mean strictly later firing, so a truncated cycle count can never be made good by the wrap. |
| `ExactExpiry.WrapCanFireEarly` | ttimer/tdengine_old.c:272 | A concrete call on a ten-slot wheel next to the wrap that fires at once instead of after six periods. |
| `ExactExpiry.LongDelayFiresEarly` | ttimer/tdengine_old.c:266 | A concrete delay whose cycle count becomes negative in a `short` and fires at once. |
| `WheelModel.InsertPos` | ttimer/tdengine_old.c:275-287 | The place of a sorted insertion: every timer before it has fewer cycles, the one behind it has not. |
| `WheelInvariant.UnlinkKeepsInv` | ttimer/tdengine_old.c:237-250 | Unlinking an armed block keeps lists sorted and distinct and moves the block from the lists into the hand of the operation, so that blocks stay partitioned. |
| `WheelInvariant.ArmKeepsInv` | ttimer/tdengine_old.c:266-301 | The sorted insertion of a held block keeps every list ordered by (cycle, latest first) and the partition of the blocks. |
| `WheelInvariant.TakeKeepsInv` | ttimer/tdengine_old.c:255-263 | Taking a block from the pool keeps the partition. |
| `WheelInvariant.PoppedKeepsInv` | ttimer/tdengine_old.c:96-108 | Expiring any number of timers from the front of a list returns exactly their blocks to the pool; none is freed twice. |
| `WheelInvariant.AgedKeepsInv` | ttimer/tdengine_old.c:85-94 | The bulk decrement keeps the order of the list. |
| `WheelInvariant.ResetKeepsInv` | ttimer/tdengine_old.c:222-309 | Every `tmrReset` call keeps the wheel invariant. |
| `WheelInvariant.ProcessKeepsInv` | ttimer/tdengine_old.c:71-114 | Every `tmrProcessList` call keeps the wheel invariant. |
| `DeadlineStore.ResetRefinesStore` | ttimer/tdengine_old.c:222-309 | Refinement: `tmrReset` on the flat set of (timer, absolute deadline) replaces the entry of the handle or adds one, changes no other deadline, and fails exactly if the handle has no pending timer and no block is free. |
| `DeadlineStore.RearmRefinesStore` | ttimer/tdengine_old.c:237-252 | Re-arm frame: a live handle keeps its block, the pool is untouched, one deadline moves, and all other timers keep their order in every list. |
| `DeadlineStore.ResetKeepsOrderOfOthers` | ttimer/tdengine_old.c:237-301 | Every call, successful or not, leaves the order of all timers but the armed one unchanged in every list. |
| `DeadlineStore.NewTimerRefinesStore` | ttimer/tdengine_old.c:253-263 | Any other handle gets the block at the head of the free queue, on which no timer was pending. |
| `DeadlineStore.ExhaustedResetChangesNothing` | ttimer/tdengine_old.c:257-262 | With the pool exhausted the handle becomes NULL and wheel and pool are unchanged. |
| `DeadlineStore.ProcessRefinesStore` | ttimer/tdengine_old.c:71-114 | Refinement: `tmrProcessList` removes exactly the entries due in the current period and leaves every other deadline as it is. |
| `DeadlineStore.FiredAreTheDue` | ttimer/tdengine_old.c:80-109 | It reports exactly the entries due now, with their callback and argument. |
| `DeadlineStore.FiredOnce` | ttimer/tdengine_old.c:80-109 | No timer and no block is reported twice in one call. |
| `DeadlineStore.LaterArmedFirstIff` | ttimer/tdengine_old.c:278-298 | The exact firing order within one call: of two due timers the later armed is reported first if and only if its cycle count is not the greater one. |
| `DeadlineStore.FiredLatestArmedFirst` | ttimer/tdengine_old.c:278-298 | With no negative cycle count in the wheel, one call reports the due timers in reverse order of their latest arming. |
| `DeadlineStore.ResetKeepsCycles` | ttimer/tdengine_old.c:266-298 | Arming with a count that is not negative keeps all counts so. |
| `DeadlineStore.ProcessKeepsCycles` | ttimer/tdengine_old.c:80-94 | The bulk decrement never makes a count negative. |
| `DeadlineStore.StoreKeys` | ttimer/tdengine_old.c:100-108 | A block stands for at most one pending timer. |
| `TimerRuns.StepKeepsValid` | ttimer/tdengine_old.c:71-309 | Every step of a run, an arming or a tick, keeps the controller invariant. |
| `TimerRuns.InitIsValid` | ttimer/tdengine_old.c:183-220 | `tmrInit` establishes the invariant with no timer pending. |
| `TimerRuns.InitSettles` | ttimer/tdengine_old.c:203-208 | The numbers `tmrInit` settles on, from its arguments, with the wheel size given by products, not by the division of the code. |
| `TimerRuns.ClockAfterRun` | ttimer/tdengine_old.c:111-131 | Closed form of period and divider after any run, whether timers are pending or not: the first period ends when the divider is full, every later one after `maxTicks` more ticks, and arming never moves the clock. |
| `TimerRuns.BlocksAreConserved` | ttimer/tdengine_old.c:96-108 | Conservation over every run after `tmrInit`: linked and free blocks are disjoint, together all of the pool, and their numbers add up to `maxNumOfTmrs + 10`. |
| `TimerRuns.FiresExactlyOnce` | ttimer/tdengine_old.c:71-134 | Over every run from every valid state: a pending timer that is not re-armed is unreported before the tick its deadline falls on and has been reported exactly once, in its due period, from that tick on; its stamp is never seen again. |
| `TimerRuns.ArmedTimerFiresExactlyOnce` | ttimer/tdengine_old.c:222-309 | The same from the point of view of a caller: the timer of a successful `tmrReset` fires exactly once with the callback and argument passed in. |
| `TimerRuns.ArmedTimerIsOnTime` | ttimer/tdengine_old.c:231-272 | That report comes `period` periods after the call if and only if `ArmsExactly` holds at the call, and then on the tick that processes that period. |
| `TimerRuns.GoneForGood` | ttimer/tdengine_old.c:100-108 | A timer that fired or was re-armed is never reported again, however long the run. |
| `TimerRuns.EveryReportIsAccounted` | ttimer/tdengine_old.c:96-106 | No spurious report: every report of a run belongs to a timer pending at its start or armed during it, in the period that arming fixed. |
| `TimerRuns.RunKeepsCycles` | ttimer/tdengine_old.c:80-94 | No cycle count is ever negative in a run whose delays have counts that fit. |
| `TimerRuns.RunsReportLatestFirst` | ttimer/tdengine_old.c:278-298 | Firing order over every run from `tmrInit` whose delays have cycle counts that are not negative in a `short`: each tick reports in reverse order of the latest arming. |
| `TimerRuns.LongDelayFiresOutOfOrder` | ttimer/tdengine_old.c:266-298 | Two armings, the first with a delay of 32768 turns, that are reported in the order of their arming. |
| `TimerRuns.FiringOrderExactly` | ttimer/tdengine_old.c:266-298 | For every configuration and every greatest delay in milliseconds: all runs with delays up to it keep the order if and only if its cycle count fits a `short`. |
| `TimerRuns.TicksUntilClosedForm` | ttimer/tdengine_old.c:126-131 | Ticks until a period is processed, counted from any phase of the divider, in closed form. |
| `TickDivider.RunsReportWithinOneResolution` | ttimer/tdengine_old.c:116-134 | Real time over whole runs: in every state a run from `tmrInit` reaches, a timer armed with a delay that `ArmsExactly` allows is reported exactly once, between period*maxTicks+1 and (period+1)*maxTicks ticks later; late by at most one resolution, and early by less than one if the resolution is a multiple of 5 ms or the delay shorter than `FirstEarlyDelay`. |
| `TickDivider.PunctualReportTick` | ttimer/tdengine_old.c:116-134 | The tick of the report of a punctual timer, from any phase, as first tick plus whole periods. |
| `TickDivider.ReportWithinOneResolution` | ttimer/tdengine_old.c:126-131 | The bounds on that number for every delay and phase. |
| `TickDivider.EarlinessExactly` | ttimer/tdengine_old.c:203-206 | For every configuration and every greatest delay: punctual timers with delays up to it, armed in any state that a run from `tmrInit` reaches, are early by less than one resolution if and only if the resolution is a multiple of 5 ms or the least drifting delay, a closed expression in the resolution, is greater. |
| `TickDivider.FirstEarlyDelayIsEarly` | ttimer/tdengine_old.c:203-206 | A run in which a punctual timer with that delay is early by exactly one resolution. |
| `MemPool.RingTake` | ttimer/tdengine_old.c:370-372 | Advancing `first` takes the head of the queue that the ring window represents. |
| `MemPool.RingPut` | ttimer/tdengine_old.c:403-404 | Writing behind the window appends to that queue, wrap-around included; what it overwrites in a ring that is full or beyond is stated too. |
| `MemPool.DoubleFreeIsTheOnlyHarm` | ttimer/tdengine_old.c:403-404 | The queue stays a list of distinct blocks, with nothing overwritten, if and only if the block freed was not free already. |
| `MemPool.FullRingIsOverwritten` | ttimer/tdengine_old.c:403-404 | Freeing into a full ring replaces the head and makes the queue longer than the pool. |
| `MemPool.FirstInFirstOut` | ttimer/tdengine_old.c:357-410 | For callers that free only blocks they hold: over any sequence of operations on the ring, what was handed out followed by what is queued is what was queued followed by what was freed, and the queue stays one of distinct blocks. |
| `MemPool.FifoExactly` | ttimer/tdengine_old.c:403-404 | For all callers: that law holds after every prefix of the operations if and only if no free replaces a queued entry by another block. |
| `MemPool.DoubleFreeLosesBlock` | ttimer/tdengine_old.c:403-404 | One double free into a full ring that breaks it: a block is lost, another queued three times. |
| `MemPool.FreeAcceptsExactly` | ttimer/tdengine_old.c:389-403 | Address round trip, for every offset: an address is taken for block k if and only if its offset is that of the block plus a multiple of 2^32 blocks; negative and unaligned offsets included. |
| `MemPool.FreeAcceptsExactlyBlocks` | ttimer/tdengine_old.c:389-403 | So, within 2^32 blocks of the pool on either side, exactly the address of block k is taken for it. |
| `MemPool.WildAddressIsAccepted` | ttimer/tdengine_old.c:389-396 | The first address beyond that range passes for block 0. |
| `MemPool.Pigeonhole` | ttimer/tdengine_old.c:403-404 | While a block is not queued the ring has room for it, so the write of `memPoolFree` never overruns. |
| `MemPool.Pool.constructor` | ttimer/tdengine_old.c:313-355 | `memPoolInit`: the queue is 0, 1, 2, ... |
| `MemPool.Pool.Malloc` | ttimer/tdengine_old.c:357-378 | Hands out the head b of the queue, zeroed, at pool + blockSize * b, which lies inside the area of the pool; with an empty queue it returns NULL and changes nothing. |
| `MemPool.Pool.BlocksAreApart` | ttimer/tdengine_old.c:370 | Blocks lie inside the area of the pool and no two overlap. |
| `MemPool.Pool.Free` | ttimer/tdengine_old.c:380-410 | Appends the block that the address is taken for, even if it is free already, and zeroes the memory at the address; every other address is ignored. |
| `MemPool.Pool.CastRoundTrip` | ttimer/tdengine_old.c:370 | The address of a block is not NULL and leads back to its number. |
| `ListMemory.UnlinkMirrors` | ttimer/tdengine_old.c:239-249 | The pointer updates of a middle unlink leave exactly the doubly linked lists without that node: `prev` and `next` stay inverse, `index` names the slot, `count` is the length. |
| `ListMemory.LinkMirrors` | ttimer/tdengine_old.c:289-300 | The pointer updates of an insertion leave exactly the lists with the new node at its place. |
| `ListMemory.PopMirrors` | ttimer/tdengine_old.c:100-103 | Taking the head off is unlinking at position 0. |
| `TmrController.LiveHandle` | ttimer/tdengine_old.c:235-237 | Handle soundness: for every block ever handed out, `timerId` equals the block itself if and only if it is linked, so `tmrReset` takes the unlink branch exactly for pending timers. |
| `TmrController.TmrCtrl.constructor` | ttimer/tdengine_old.c:183-220 | `tmrInit` on memory establishes the invariant with, on the fields: the resolution asked for but at least 5 ms, a period of resolution / 5 ticks, the phase passed in, the greatest number of whole resolutions in `longest` but at least 10 empty lists, and a pool of `maxNumOfTmrs + 10` blocks; this is the initial state of the run model. |
| `TmrController.TmrCtrl.UnlinkPointers` | ttimer/tdengine_old.c:239-249 | The C pointer writes compute the unlink of `ListMemory`. |
| `TmrController.TmrCtrl.Unlink` | ttimer/tdengine_old.c:237-252 | Takes an armed block out of its list, in memory and in the model. |
| `TmrController.TmrCtrl.Allocate` | ttimer/tdengine_old.c:255-263 | Takes the head of the free queue and puts it in the hand of the operation, or returns NULL and changes nothing. |
| `TmrController.TmrCtrl.FindPlace` | ttimer/tdengine_old.c:275-287 | The walk stops between the two nodes where the sorted insertion belongs. |
| `TmrController.TmrCtrl.LinkPointers` | ttimer/tdengine_old.c:289-300 | The C pointer writes compute the insertion of `ListMemory`. |
| `TmrController.TmrCtrl.Link` | ttimer/tdengine_old.c:266-301 | Fills in the block in hand and links it at its place. |
| `TmrController.TmrCtrl.TmrReset` | ttimer/tdengine_old.c:222-309 | The whole call is one step of the run model, for every handle that is NULL or was given out by the controller, and leaves the invariant of memory, pool and handles in place. |
| `TmrController.TmrCtrl.PopPointers` | ttimer/tdengine_old.c:100-103 | The C pointer writes take the head off a list. |
| `TmrController.TmrCtrl.ExpireHead` | ttimer/tdengine_old.c:96-108 | One round of the loop: the head leaves the list, is reported, and its block returns to the pool. |
| `TmrController.TmrCtrl.DecrementCycles` | ttimer/tdengine_old.c:87-92 | The walk decrements every timer of the list once and nothing else. |
| `TmrController.TmrCtrl.TmrProcessList` | ttimer/tdengine_old.c:71-114 | The whole call computes the period of the wheel model, appends exactly its reports, in order, to the log, and counts one period modulo 2^32, with an empty list too. |
| `TmrController.TmrCtrl.TimerLoopFunc` | ttimer/tdengine_old.c:116-134 | The whole call is one tick of the run model, reports included. On the fields, pending timers or not: before the last tick of a period only the divider moves; the last tick sets it to 0 and counts one period modulo 2^32. |
| `StoreRuns.StepKeepsInv` | ttimer/timer.c:86-243 | Every safe step of every thread of the store keeps its invariant: lock words, chains, wheel lists, reference ledger and counters, in every interleaving. A step is unsafe only if it decrements a counter with a positive multiple of 256 other references, or reads the wheel of a timer for the second time after another removal has won. |
| `StoreRuns.RunKeepsInv` | ttimer/timer.c:86-243 | So it holds after every run of safe steps of any number of threads. |
| `StoreRuns.InvHoldsExactly` | ttimer/timer.c:86-243 | Over every possible run: the invariant holds throughout if and only if every step is safe. |
| `StoreRuns.InitialInv` | ttimer/timer.c:68-75 | It holds of the initialised store. |
| `StoreSafety.EveryReachableStateIsSafe` | ttimer/timer.c:86-243 | Over every run from the initialised store: counters are right, no pointer of a chain, a wheel or a coming step leads to a freed timer, chain locks exclude, no assertion fails. |
| `StoreInvariant.DecRefCounts` | ttimer/timer.c:90-94 | The atomic decrement keeps the 8-bit counter equal to the number of references modulo 256, and, if it is safe, reaches 0 exactly with the last one. |
| `StoreLifetime.RefCountIsReferences` | ttimer/timer.c:86-94 | The counter is the number of references: one if in the map, one if in a wheel, one per operation in flight and per caller variable; a timer is live exactly while that number is positive. |
| `StoreLifetime.NoStepTouchesFreed` | ttimer/timer.c:86-243 | No step, in any interleaving, reads or writes a field of a freed timer; one not yet published is touched by its creator only. |
| `StoreLifetime.LinkedIsLive` | ttimer/timer.c:114-243 | Every node of a chain and of a wheel slot is live. |
| `StoreLifetime.FreedWithLastReference` | ttimer/timer.c:90-94 | `free` is called by exactly the step with which the last reference disappears; a freed timer never changes again. |
| `StoreLifetime.FreedOnce` | ttimer/timer.c:90-94 | Over a whole run a timer is freed at most once, and exactly once if it has had references and lost them all. |
| `StoreLifetime.DecrementFreesHeldTimer` | ttimer/timer.c:90-94 | The exact limit of `uint8_t`: a decrement frees a timer that is still held if and only if the references besides the one dropped are a positive multiple of 256. |
| `StoreLifetime.WrappedCounterFreesHeldTimer` | ttimer/timer.c:86-94 | A run in which that happens: with 257 references the first release frees the timer under the other 256. |
| `StoreSteps.ReleaseLocks` | ttimer/timer.c:106-111 | At every unlock the lock word holds the id of the unlocking thread, so the compare-exchange succeeds. |
| `StoreLocking.ChainLocksExclude` | ttimer/timer.c:96-111 | At most one thread is between lock and unlock of a chain; the lock word names it, and is 0 exactly if there is none; the assertion in `unlockTimerList` never fails. |
| `StoreLocking.LockedChainIsStable` | ttimer/timer.c:121-164 | While a thread is inside a chain, no step of another thread changes that chain. |
| `StoreLocking.NeverStuck` | ttimer/timer.c:114-243 | In every state that safe steps lead to, a thread in the middle of an operation can take the next step of the code (spinning, if the chain is locked) and no other, so the step guards restrict callers only. |
| `StoreMap.MapIsFunctional` | ttimer/timer.c:114-165 | Each id occurs at most once over all chains. |
| `StoreMap.AddAddsOneEntry` | ttimer/timer.c:121-124 | `addTimer` changes the map from ids to timers by exactly its entry, whose id was not mapped. |
| `StoreMap.RemoveDeletesOneEntry` | ttimer/timer.c:151-163 | `removeTimer`, if it finds a node, deletes exactly the entry of its id. |
| `StoreMap.OtherStepsKeepMap` | ttimer/timer.c:86-243 | No other step changes the map. |
| `StoreMap.FindReturnsTheMappedTimer` | ttimer/timer.c:128-143 | The walk of a lookup ends with a timer if and only if its id is mapped at that step, with the mapped one, and the caller holds a reference to it; `StoreCalls.FindCall` ties the id to the argument. |
| `StoreMap.RemoveFindsExactlyMapped` | ttimer/timer.c:151-162 | The walk of a removal unlinks a node if and only if its id is mapped when it ends. |
| `StoreCalls.CallKeepsItsArguments` | ttimer/timer.c:86-243 | Whatever any number of other threads do, a call in progress keeps the arguments, the timer and the caller variables it began with, up to the step that decides it. |
| `StoreCalls.FindCall` | ttimer/timer.c:128-143 | `findTimer(id)` as a whole, in every interleaving: at its end the result variable holds a timer if and only if the argument id is mapped at that step, the mapped one, and no other variable of the caller has changed. |
| `StoreCalls.FindZero` | ttimer/timer.c:128-130 | `findTimer(0)` leaves the store as it is and returns nothing. |
| `StoreCalls.RemoveCall` | ttimer/timer.c:146-165 | `removeTimer(id)` as a whole: its walk ends with the map without the argument id and otherwise unchanged, and with the reference of the map to the timer of that id left to drop if and only if there was one. |
| `StoreCalls.AddCall` | ttimer/timer.c:114-125 | `addTimer(t)` as a whole: it adds the entry of the id that t had when the call began, for t, and that id was not mapped. |
| `StoreCalls.LinkCall` | ttimer/timer.c:173-207 | `addToWheel(t)` as a whole, for the wheel and slot chosen: t is put in front of that slot list, where it was not before, and its fields name that wheel and slot. |
| `StoreCalls.UnlinkCall` | ttimer/timer.c:209-243 | `removeFromWheel` as a whole, on the timer its argument named: it returns true if and only if that timer is in a wheel at its mutex section, and in either case the timer is in no wheel after it. |
| `StoreCalls.UnlinkCallLosesAtOnce` | ttimer/timer.c:210-212 | On a timer that names no wheel at the first read it ends there and leaves the store as it is. |
| `StoreWheelRace.WinsMatchLinks` | ttimer/timer.c:173-243 | In every run: the additions of a timer to a wheel are the removals that returned true, plus one exactly while it is in a wheel. |
| `StoreWheelRace.OneWinner` | ttimer/timer.c:209-243 | Among any number of concurrent `removeFromWheel` calls on a timer that is not added again at most one returns true, and once any call has returned exactly one has and the timer is in no wheel. |
| `StoreWheelRace.SecondReadIsSafeExactly` | ttimer/timer.c:210-219 | `timer->wheel` is read twice before the mutex: whatever the other threads do between the reads, the mutex locked belongs to the array if and only if no other removal of the timer has won in between. |
| `StoreWheelRace.OvertakenRemoverLeavesArray` | ttimer/timer.c:210-219 | In every state in which two idle threads hold a timer that is in a wheel, a run in which one overtakes the other there, which then locks the mutex of `wheels + 3`. |
| `StoreWheelRace.SlotListsKeepOrder` | ttimer/timer.c:186-243 | A step changes at most one slot list, by one timer added in front or one taken out; all others keep their order. |
| `StoreWheelSteps.UnlinkFinds` | ttimer/timer.c:214-221 | A timer that still names a wheel inside the mutex section is in the wheel of the second read, so the mutex taken is the right one. |
| `StoreWheelSteps.LinkWheelKeepsInv` | ttimer/timer.c:190-206 | The mutex section of `addToWheel` keeps the invariant; the reference in flight becomes the one of the wheel. |
| `StoreWheelSteps.UnlinkWheelKeepsInv` | ttimer/timer.c:219-240 | The mutex section of `removeFromWheel` keeps the invariant, whether it wins or loses. |
| `StoreChainSteps.PushKeepsInv` | ttimer/timer.c:121-124 | Publishing a node keeps the invariant; the reference in flight becomes the one of the map. |
| `StoreChainSteps.RemoveHitKeepsInv` | ttimer/timer.c:151-163 | Unlinking a node keeps the invariant; the reference of the map is the one still to drop. |
| `StoreMemory.PushMirrors` | ttimer/timer.c:121-123 | The two pointer writes of `addTimer` leave exactly the chains with the new node in front. |
| `StoreMemory.CutMirrors` | ttimer/timer.c:151-158 | The bypass write of `removeTimer` leaves exactly the chains without the node. |
| `StoreMemory.LinkMirrors` | ttimer/timer.c:198-204 | The writes of `addToWheel` leave well-formed doubly linked slot lists with the timer in front, in the slot its fields name. |
| `StoreMemory.UnlinkMirrors` | ttimer/timer.c:221-236 | The writes of `removeFromWheel` leave well-formed doubly linked slot lists without the timer, the others in order. |
| `TimerTables.TimerStore.AddTimer` | ttimer/timer.c:114-125 | On memory, for a timer in no chain and no wheel, added for the first time or again: counter, wheel mark and chain change as stated, nothing else. |
| `TimerTables.TimerStore.FindTimer` | ttimer/timer.c:128-143 | On memory: the result is the first node of the chain with the id, or NULL; only its counter changes. |
| `StoreOnMemory.StepOnMemory` | ttimer/timer.c:86-243 | The pointer writes of every step, applied to a memory that spells out the state, leave one that spells out the next state: chains, doubly linked slot lists, counters and fields. |
| `StoreOnMemory.MemoryAfter` | ttimer/timer.c:86-243 | So it does after every run of any number of threads. |
| `StoreOnMemory.EveryReachableListIsWellFormed` | ttimer/timer.c:114-243 | After every interleaving from the initialised store on, every chain and every slot is a well-formed list in memory, linked both ways in the slots, of exactly the timers of the state. |
| `StoreOnMemory.CursorFollowsPointers` | ttimer/timer.c:134-162 | The walks under the lock start at the list head, move by `mnext` and end at NULL exactly where the transition system says. |
| `TimerTables.TimerStore.CutOut` | ttimer/timer.c:151-158 | The C pointer writes compute the unlink of `StoreMemory`. |
| `TimerTables.TimerStore.RemoveTimer` | ttimer/timer.c:146-165 | On memory: the first node with the id leaves its chain and loses a reference; without such a node nothing changes. |
| `TimerTables.TimerStore.AddToWheel` | ttimer/timer.c:173-207 | On memory: the timer becomes the head of a slot of the finest wheel whose turn is longer than the delay, or of the last wheel, one past the position of that wheel plus the least number of scans that reaches the expiry (where the rounded offset fits 32 bits; otherwise plus what the wrapped offset gives); expiry and counter are set, nothing else changes. |
| `TimerTables.TimerStore.TargetMeans` | ttimer/timer.c:177-198 | The same of the slot alone, from the wheel table and the state of the wheels. |
| `TimerTables.NoWheelIsPastTheTable` | ttimer/timer.c:116 | The mark of a timer in no wheel is the length of the wheel table. |
| `TimerTables.TimerStore.Detach` | ttimer/timer.c:222-236 | The C pointer writes compute the unlink of `StoreMemory`. |
| `TimerTables.TimerStore.RemoveFromWheel` | ttimer/timer.c:209-243 | On memory: returns true exactly if the timer names a wheel; then it leaves its slot and loses a reference, otherwise nothing changes. |
| `TimerIds.IdSource.GetNextTimerId` | ttimer/timer.c:77-83 | The loop leaves the successor of the last id, skipping 0. |
| `TimerIds.HandedOut` | ttimer/timer.c:77-83 | However the atomic additions of concurrent callers interleave, the ids handed out are those of a closed form, in order. |
| `TimerIds.IdsRepeatAfterFullCycle` | ttimer/timer.c:77-83 | Two ids are equal if and only if their distance is a multiple of the number of counter values minus one. |
| `TimerIds.IdsAreDistinct` | ttimer/timer.c:77-83 | Any 2^w - 1 consecutive ids of a w-bit counter are nonzero and pairwise different. |
| `WheelChoice.SelectWheel` | ttimer/timer.c:177-184 | The finest wheel whose span exceeds the delay, else the last. |
| `WheelChoice.WheelTable` | ttimer/timer.c:70-74 | Number, resolution and size of the three wheels. |
| `WheelChoice.SlotOfFirstScan` | ttimer/timer.c:192-198 | The slot computed is one past the position of the wheel plus the least number of scans, in whole resolutions from the next one, that reaches the expiry; no division appears in the statement. |
| `WheelChoice.RoundsUpToFirstScan` | ttimer/timer.c:192-196 | The instant that the slot arithmetic designates is at or after the expiry if and only if the rounded offset fits 32 bits; it is then the first such instant of the scan grid, and overshoots by less than one resolution if the timer expires after the next scan. |
| `WheelChoice.InaccuracyIsBounded` | ttimer/timer.c:173-196 | On the chosen wheel the designated instant is never before the expiry if and only if the offset to the next scan, rounded up, fits 32 bits; then it is less than one resolution late for a timer that expires after that scan, on the two coarser wheels by less than a 17th of its delay, and is that scan for any other one. |
| `WheelChoice.SlotIgnoresWrap` | ttimer/timer.c:198 | The 32-bit wrap of the sum never moves a slot. |
| `WheelChoice.SlotsMeetAfterWholeTurns` | ttimer/timer.c:198 | Two timers share a slot if and only if whole turns lie between their scans. |
| `WheelChoice.SlotNamesScan` | ttimer/timer.c:192-198 | Within one turn, equal slots mean equal scans. |

## Left out

- `processAlarmSignal`, `tmrModuleInit`, `taosGetTimestampMs`: signals, interval timers, thread creation and the clock. A tick is a step and the time an input.
- `rand` in `tmrInit`: the initial phase of the divider is any natural number.
- `printf` and return codes of mutex operations.
- Allocation failures in `memPoolInit` and `tmrInit`, and `memPoolCleanup`.
- More than one controller: `tmrInit` always uses slot 0 of the controller table.
- The field `pCtrl` of a block, which is written and never read.
- Overflow of `ticks`, and of `blockSize * numOfBlock` in `memPoolInit`: the pool is assumed to fit an `int`.
- What callbacks do: a report in the log stands for the end of a timer and carries its callback, which the code calls only if it is not NULL. Callbacks run under the controller's mutex and cannot re-enter.
- The memory outside the pool, which `memPoolFree` zeroes at an address it wrongly takes for a block; and overflow of `numOfFree` by repeated double frees.
- Handles that were not written by an earlier `tmrReset` of the same controller.
- The scan and expiry loop of `ttimer/timer.c`: it is not in the repository, so nothing is claimed about when a timer of the store fires.
- Initialisation of map and wheels of the store, likewise not in the repository.
- Fairness and progress of the spin lock, and `sched_yield`.
- Reuse of the address of a freed timer by a later allocation of the store.
- Wheel mutexes as separate steps: a mutex section of the store is one step. The provisional value that `addToWheel` writes to `timer->wheel` at line 177 of `ttimer/timer.c` is not a state of its own; no other thread may look at it then.
- Comparing an id and taking the reference in `findTimer` are one step; the chain lock is held over both.
- Wheel and slot of an addition are any existing ones in the transition system; `WheelChoice` and `TimerTables.TimerStore.AddToWheel` say which.
- StoreRuns.RunKeepsInv: runs end before the first unsafe step, because what the C program does after it is undefined; `StoreRuns.InvHoldsExactly` says that this is the only restriction.
- Everything outside the two files: demonstrations of system calls and language features.
