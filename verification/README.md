# Verified model of the icm event-handling core

The `icc` library of icm-1.1 is a C++ port of the ACE event framework. This project models
its state-keeping core in Dafny and proves what that core is for.

- **Timer heap and timer queue** (`TimeValue.dfy`, `TimerIds.dfy`, `HeapOrder.dfy`,
  `TimerTables.dfy`, `Expiry.dfy`, `TimerHeap.dfy`). A binary heap of timers is kept inverse to
  a table of timer ids, with a cursor-based id allocator, doubling growth and an expiry loop.
  The heap refines a map from ids to timers; a free id is always found; expiry fires each due
  timer once and in order.
- **Handle sets** (`Bits.dfy`, `HandleSet.dfy`). A word-packed bit set with cached size and
  maximum, its two bit counts, and the look-ahead iterator used while the set is cleared.
- **POSIX AIO proactor** (`AioSlots.dfy`, `PosixProactor.dfy`). Two parallel arrays, three
  counters and a result queue over an arbitrary operating system: no result is lost or
  delivered twice, and one pass delivers everything that had finished.
- **Epoll reactor** (`DevPollReactor.dfy`). The handler table stays in step with the kernel's
  one-shot interest set through every operation and callback.
- **Message queue** (`MessageQueue.dfy`, `QueueMonitor.dfy`). The linked list refines a FIFO
  sequence, and the monitor does not leave producers and consumers all asleep before a wake-up is
  lost.

Objects that the source updates in place are classes whose `Valid()` is the invariant. The
methods are tied to functions on plain sequences and maps, and the lemmas are about those. A
ghost field holds the abstract value (`timers`, `contents`, `delivered`, `accepted`). `Wrappers.dfy`
holds what several files share.

Where the code and its comments disagree, the model follows the code:

- The heap's constructor comment says that the id after a wrap is 0 (`TimerHeap.cpp:92-96`).
  Growth drops the record of id 0: `FirstWrapGivesZeroIff` says exactly when the comment holds,
  `GrowthCanLoseAnId` is a run outside it. That some free id is found (`TimerHeap.cpp:187-189`) holds all the same:
  `EveryRunFindsFreeId`.
- A handler whose callback returned 0 is meant to be resumed before the next wait. A
  `std::map` insertion keeps an older entry, so this holds exactly under the condition of
  `ResumedBeforeWait`; `StaleNoteBlocksResumption` is a single-threaded run outside it.
- A handle is meant to be quiet in the kernel from its event to the end of the callback.
  `QuietThroughoutIff` says exactly when it is, `RearmedWhileParked` is a run in which it is
  not. A suspension lasts over the next wait exactly under `SuspensionLastsIff`;
  `SelfSuspensionIsUndone` is a run in which it does not.
- A handle that a callback takes out of the set being dispatched can still have its turn:
  `TakenOutHasTurnIff` says exactly when. The turn is a callback only if a handler is still
  registered for the handle, for other events; `TakenOutIsCalledBack` is such a run.
- A producer that waits with a null item takes a wake-up and leaves: `ProducersStep` says
  exactly when a wake-up is lost, `MissingMessageStrands` is such a run.
- The table branch of `countBits` looks at 32 bits only: `TableAgreesOn32Bits`.

Conventions. Integers are unbounded. Time is a record of seconds and microseconds, and the
clock is a parameter. Answers of the operating system (`aio_*`, `epoll_wait`) and of callbacks
are arbitrary parameters. `epoll_ctl` fails only with EEXIST or ENOENT. Locks make each method,
or each step of the monitor, atomic.

## Model

| member | source | states |
|---|---|---|
| `TimeValues.OfTotal` | icm-1.1/icc/TimeValue.cpp:88-110 | every number of microseconds has a record in the normalised form, and its total is that number |
| `TimeValues.CanonicalIsUnique` | icm-1.1/icc/TimeValue.cpp:88-110 | the normalised form is unique: a normalised record is determined by its total |
| `TimeValues.ComparisonsAreOrderOfTotals` | icm-1.1/icc/TimeValue.cpp:203-258 | on normalised values `>`, `>=`, `<`, `<=` and `==` are exactly the order of the totals, negative times included |
| `TimeValues.RawComparisonRightIff` | icm-1.1/icc/TimeValue.cpp:176-247 | a raw record compares with every normalised value as its total does if and only if it is normalised itself |
| `TimeValues.RawComparisonCanBeWrong` | icm-1.1/icc/TimeValue.cpp:203-214 | a pair with a raw record whose comparison contradicts the totals |
| `TimeValues.TimeValue.constructor` | icm-1.1/icc/TimeValue.cpp:23-26 | the value built is the normal form of sec and usec |
| `TimeValues.TimeValue.Set` | icm-1.1/icc/TimeValue.cpp:33-49 | the value set is the normal form of sec and usec |
| `TimeValues.TimeValue.Normalize` | icm-1.1/icc/TimeValue.cpp:88-110 | the loops end and give the unique normal form of the same total: less than a second of microseconds, and both parts of the sign of the total |
| `TimeValues.TimeValue.AddAssign` | icm-1.1/icc/TimeValue.cpp:270-277 | `+=` adds totals exactly and normalises |
| `TimeValues.TimeValue.SubAssign` | icm-1.1/icc/TimeValue.cpp:304-311 | `-=` subtracts totals exactly and normalises |
| `TimeValues.Plus` | icm-1.1/icc/TimeValue.cpp:322-331 | `+` is exact addition of totals in normal form |
| `TimeValues.Minus` | icm-1.1/icc/TimeValue.cpp:334-342 | `-` is exact subtraction of totals in normal form |
| `TimerIds.Alloc.NextFree` | icm-1.1/icc/TimerHeap.cpp:194-198 | the march of the cursor stops at the first free id at or above its start, or at the end of the table |
| `TimerIds.HintIsRecordedAtWrap` | icm-1.1/icc/TimerHeap.cpp:186-212 | when the march runs off the table, the recorded lowest free id is a real one |
| `TimerIds.PopFindsFreeId` | icm-1.1/icc/TimerHeap.cpp:182-212 | `popFreelist` ends on a free in-range id, keeps its hint meaningful, and passes over no further free id unrecorded |
| `TimerIds.PopTakesNextFree` | icm-1.1/icc/TimerHeap.cpp:182-212 | the id handed out is the next free one above the cursor, and when there is none the lowest free one that is not lost |
| `TimerIds.ScheduleKeepsInv` | icm-1.1/icc/TimerHeap.cpp:540-571 | taking the popped id and growing when the heap is nearly full keeps at least two ids free and at most one of them unrecorded |
| `TimerIds.PushKeepsInv` | icm-1.1/icc/TimerHeap.cpp:214-236 | `pushFreelist` of a used id keeps the same invariant |
| `TimerIds.TakeBack` | icm-1.1/icc/TimerHeap.cpp:503-517 | rescheduling under the old id gives back exactly the allocator state before; no growth happens |
| `TimerIds.RunKeepsInv` | icm-1.1/icc/TimerHeap.cpp:182-236 | from any initial size of at least 2, every run of scheduling, freeing and rescheduling keeps the invariant |
| `TimerIds.EveryRunFindsFreeId` | icm-1.1/icc/TimerHeap.cpp:182-212 | after every such run the next id is in range and neither active nor in limbo, and the room test of `scheduleI` succeeds |
| `TimerIds.BeforeFirstWrap` | icm-1.1/icc/TimerHeap.cpp:182-236 | until the first wrap id 0 is unused, and recorded exactly as long as the table has not grown |
| `TimerIds.ZeroStaysLost` | icm-1.1/icc/TimerHeap.cpp:182-236 | an id 0 neither used nor recorded is never used again |
| `TimerIds.FirstWrapGivesZeroIff` | icm-1.1/icc/TimerHeap.cpp:92-96 | in every run the first wrap hands out 0 if and only if the table has not grown before it; after growth 0 is used in no later state |
| `TimerIds.GrowthCanLoseAnId` | icm-1.1/icc/TimerHeap.cpp:497-497 | a run from size 2 whose first wrap hands out 1 although 0 is free |
| `HeapOrder.TreeShape` | icm-1.1/icc/TimerHeap.cpp:28-38 | the children of a slot are exactly its left child and the slot after that |
| `HeapOrder.SmallerChild` | icm-1.1/icc/TimerHeap.cpp:380-385 | the child looked at is a child of the slot and inside the heap |
| `HeapOrder.SmallerChildIsSmallest` | icm-1.1/icc/TimerHeap.cpp:380-385 | that child is not later than any other child of the slot |
| `HeapOrder.SiftUpRestores` | icm-1.1/icc/TimerHeap.cpp:403-429 | sifting up from an open slot restores heap order and the mutual inverse of heap and id table, and touches the table only at active ids |
| `HeapOrder.SiftDownRestores` | icm-1.1/icc/TimerHeap.cpp:372-401 | sifting down from an open slot restores the same |
| `HeapOrder.InsertOpensHole` | icm-1.1/icc/TimerHeap.cpp:431-443 | a new id leaves an ordered and linked heap with a hole at the end that it fits below |
| `HeapOrder.RemoveOpensHole` | icm-1.1/icc/TimerHeap.cpp:341-365 | moving the last node into the gap leaves one open slot, and the node fits from above or from below |
| `HeapOrder.CloseGapRestores` | icm-1.1/icc/TimerHeap.cpp:330-370 | whatever slot is removed, the direction `remove` picks restores order and links for exactly the other timers |
| `HeapOrder.RootIsMinimum` | icm-1.1/icc/TimerHeap.cpp:266-270 | no timer in the heap is due before the root |
| `TimerTables.RemoveKeepsConsistent` | icm-1.1/icc/TimerHeap.cpp:330-370 | `remove` moves one id from active to limbo and keeps every id exactly one of active, limbo or free, with exact counters |
| `TimerTables.PlaceKeepsConsistent` | icm-1.1/icc/TimerHeap.cpp:431-443 | `insert` makes one id active and keeps the joint invariant |
| `TimerTables.FreeKeepsConsistent` | icm-1.1/icc/TimerHeap.cpp:214-236 | `pushFreelist` of a limbo id makes it free and keeps the joint invariant |
| `TimerTables.LimboOpens` | icm-1.1/icc/TimerHeap.cpp:503-517 | an id taken out of limbo carries the limbo marker and is not active |
| `TimerTables.GrowthMarksFree` | icm-1.1/icc/TimerHeap.cpp:486-493 | the new entries read as free if and only if the size before is not 1 |
| `TimerTables.GrowthKeepsConsistent` | icm-1.1/icc/TimerHeap.cpp:445-498 | doubling the arrays keeps the joint invariant for the same timers |
| `TimerTables.IntervalKeepsConsistent` | icm-1.1/icc/TimerHeap.cpp:620-651 | changing an interval keeps the joint invariant |
| `TimerTables.UseCount` | icm-1.1/icc/TimerHeap.cpp:548-557 | active and limbo ids together are as many as the two counters say |
| `TimerTables.IdFacts` | icm-1.1/icc/TimerHeap.cpp:592-606 | an in-range id is active exactly when its entry is not negative, and the entry leads to its slot |
| `TimerTables.RootIsEarliest` | icm-1.1/icc/TimerHeap.cpp:266-270 | the root is a timer, and none is due before it |
| `Expiry.NextDueIsLeast` | icm-1.1/icc/TimerQueue.cpp:173-183 | the next expiry is the least expiry + k * interval with k >= 1 that is after now |
| `Expiry.RenewedIsLater` | icm-1.1/icc/TimerQueue.cpp:173-183 | a renewed timer is due after now |
| `Expiry.CancelledGrows` | icm-1.1/icc/TimerQueue.cpp:254-261 | one more upcall makes its handler cancelled exactly when it answers -1, and no other |
| `Expiry.ProgressStep` | icm-1.1/icc/TimerQueue.cpp:147-152 | firing an earliest due timer and its upcall fires an id not fired before and keeps the account of the loop |
| `Expiry.ProgressEnd` | icm-1.1/icc/TimerQueue.cpp:131-155 | when nothing is due any more: each due timer fired at most once, and once unless cancelled, in order of expiry; no handler is called again after it answered -1; the survivors are exactly the others, under their ids, all later than now |
| `TimerHeaps.SkipPast` | icm-1.1/icc/TimerQueue.cpp:176-179 | the do-while loop ends at the least later expiry |
| `TimerHeaps.GrownTable` | icm-1.1/icc/TimerHeap.cpp:478-493 | the new table is the old one followed by -(i+1) for each new id i |
| `TimerHeaps.TimerHeap.constructor` | icm-1.1/icc/TimerHeap.cpp:97-125 | an empty heap of that size; the joint invariant with the allocator holds if and only if the size is at least 2 |
| `TimerHeaps.TimerHeap.Copy` | icm-1.1/icc/TimerHeap.cpp:309-323 | a node in a slot and the slot in the table |
| `TimerHeaps.TimerHeap.ReheapUp` | icm-1.1/icc/TimerHeap.cpp:403-429 | the loop over nodes refines sifting up on the two tables |
| `TimerHeaps.TimerHeap.ChooseChild` | icm-1.1/icc/TimerHeap.cpp:380-385 | picks the earlier child |
| `TimerHeaps.TimerHeap.ReheapDown` | icm-1.1/icc/TimerHeap.cpp:372-401 | the loop over nodes refines sifting down on the two tables |
| `TimerHeaps.TimerHeap.RemoveRaw` | icm-1.1/icc/TimerHeap.cpp:330-370 | `remove` as a function of heap and id table |
| `TimerHeaps.TimerHeap.Remove` | icm-1.1/icc/TimerHeap.cpp:330-370 | takes exactly the timer of the slot out of the map from ids to timers and puts its id into limbo; keeps the joint invariant; no step for the allocator |
| `TimerHeaps.TimerHeap.PopFreelist` | icm-1.1/icc/TimerHeap.cpp:182-212 | the scanning loops refine the allocator step; every entry passed over is in use |
| `TimerHeaps.TimerHeap.PushFreelist` | icm-1.1/icc/TimerHeap.cpp:214-236 | marks the id free, lowers the counter its marker asks for, and lowers the hint when the id is behind the cursor |
| `TimerHeaps.TimerHeap.TimerId` | icm-1.1/icc/TimerHeap.cpp:238-245 | hands out the allocator's next id and leaves the tables alone |
| `TimerHeaps.TimerHeap.FreeNode` | icm-1.1/icc/TimerHeap.cpp:526-535 | frees exactly this limbo id; keeps the joint invariant; a release step of the allocator |
| `TimerHeaps.TimerHeap.GrowHeap` | icm-1.1/icc/TimerHeap.cpp:445-498 | doubles both arrays, keeps the old contents, and resets the hint |
| `TimerHeaps.TimerHeap.Insert` | icm-1.1/icc/TimerHeap.cpp:431-443 | adds one binding and grows first exactly when the allocator says so |
| `TimerHeaps.TimerHeap.AllocNode` | icm-1.1/icc/TimerHeap.cpp:519-524 | a new node with the given values, outside the heap |
| `TimerHeaps.TimerHeap.Schedule` | icm-1.1/icc/TimerHeap.cpp:540-571 | never fails; adds exactly one binding under an id distinct from all active and limbo ids, the next free one; a schedule step of the allocator |
| `TimerHeaps.TimerHeap.Reschedule` | icm-1.1/icc/TimerHeap.cpp:503-517 | puts a limbo timer back under its id and never grows; no step for the allocator |
| `TimerHeaps.TimerHeap.IsEmpty` | icm-1.1/icc/TimerHeap.cpp:249-254 | true exactly when there are no timers |
| `TimerHeaps.TimerHeap.EarliestTime` | icm-1.1/icc/TimerHeap.cpp:266-270 | is the expiry of some timer and not after any other |
| `TimerHeaps.TimerHeap.RemoveFirst` | icm-1.1/icc/TimerHeap.cpp:693-702 | removes a timer with minimal expiry, leaves its id in limbo; null exactly when empty |
| `TimerHeaps.TimerHeap.CancelById` | icm-1.1/icc/TimerHeap.cpp:576-616 | removes exactly the binding of this id; 1 if it was active, 0 otherwise; returns its act |
| `TimerHeaps.TimerHeap.ResetInterval` | icm-1.1/icc/TimerHeap.cpp:620-651 | changes the interval of exactly this timer; -1 and no change if there is none |
| `TimerHeaps.TimerHeap.CancelByHandler` | icm-1.1/icc/TimerHeap.cpp:655-689 | ends although it restarts its scan; removes exactly the timers of the handler, counts them, leaves the others and their ids |
| `TimerHeaps.TimerHeap.DispatchInfoI` | icm-1.1/icc/TimerQueue.cpp:157-194 | fires an earliest timer if it is due, renewing or freeing it; otherwise nothing is due |
| `TimerHeaps.TimerHeap.Upcall` | icm-1.1/icc/TimerQueue.cpp:247-264 | an answer of -1 cancels the handler's timers, any other changes nothing |
| `TimerHeaps.TimerHeap.Expire` | icm-1.1/icc/TimerQueue.cpp:131-155 | ends for every sequence of answers; each timer due at entry fires at most once, exactly once unless cancelled, in order of expiry, and none of a handler that has answered -1; of the due timers those with a positive interval and an uncancelled handler stay, under their old ids; what is left is later than now |
| `TimerHeaps.TimerHeap.CalculateTimeout` | icm-1.1/icc/TimerQueue.cpp:36-74 | min of the limit and the time to the first expiry, zero when that has passed: no sleep past any timer, nor past a non-negative limit |
| `Bits.KernighanStep` | icm-1.1/icc/HandleSet.cpp:42-45 | `m &= m - 1` removes exactly one set bit |
| `Bits.CountBits` | icm-1.1/icc/HandleSet.cpp:33-47 | the loop counts the set bits of a word of any width |
| `Bits.TableEntryIsCount` | icm-1.1/icc/HandleSet.cpp:14-31 | each of the 256 entries is the bit count of its index |
| `Bits.TableAgreesOn32Bits` | icm-1.1/icc/HandleSet.cpp:48-53 | the table branch misses exactly the bits above 32, so it agrees with the loop if and only if there are none |
| `Bits.TopBitIsHighest` | icm-1.1/icc/HandleSet.cpp:145-175 | the bit found by shifting is set and none above it is |
| `HandleSets.TopHandleIsLargest` | icm-1.1/icc/HandleSet.cpp:145-175 | the downward word scan and shift search find the largest member, or the invalid handle exactly when the count is 0 |
| `HandleSets.SumCountsMembers` | icm-1.1/icc/HandleSet.cpp:64-80 | the sum of the word counts is the number of members |
| `HandleSets.SyncExact` | icm-1.1/icc/HandleSet.cpp:64-80 | a recount of the first words gives the true size and maximum if and only if there is no member above them |
| `HandleSets.HandleSet.constructor` | icm-1.1/icc/HandleSet.cpp:56-59 | the empty set, size and maximum to match |
| `HandleSets.HandleSet.Reset` | icm-1.1/icc/HandleSet.cpp:82-87 | the empty set, size and maximum to match |
| `HandleSets.HandleSet.IsSet` | icm-1.1/icc/HandleSet.cpp:89-92 | membership |
| `HandleSets.HandleSet.SetBit` | icm-1.1/icc/HandleSet.cpp:94-107 | adds exactly this handle; size stays the number of members and the maximum the largest |
| `HandleSets.HandleSet.SetMax` | icm-1.1/icc/HandleSet.cpp:145-175 | the largest member of the words scanned, or invalid when the size is 0 |
| `HandleSets.HandleSet.ClrBit` | icm-1.1/icc/HandleSet.cpp:109-121 | removes exactly this handle, keeps size and maximum right, also when the maximum goes |
| `HandleSets.HandleSet.Sync` | icm-1.1/icc/HandleSet.cpp:64-80 | size and maximum are those of the scanned words, and right if and only if no member lies past them |
| `HandleSets.StandingAfterClear` | icm-1.1/icc/HandleSet.cpp:177-250 | clearing any handle of the set does not move the iterator, which keeps the word it has loaded |
| `HandleSets.HandleSetIterator.constructor` | icm-1.1/icc/HandleSet.cpp:252-290 | stands on the least member, if there is one |
| `HandleSets.HandleSetIterator.Next` | icm-1.1/icc/HandleSet.cpp:177-250 | returns the handle it stands on and moves to the next one it sees, also when handles were cleared meanwhile; the invalid handle exactly when the set has no member at or above |
| `HandleSets.TraceLeaves` | icm-1.1/icc/SelectReactor.cpp:290-343 | what is left is what was there without the handles that had a turn and those that callbacks took out |
| `HandleSets.TraceAscends` | icm-1.1/icc/SelectReactor.cpp:290-309 | only members have turns; of any two turns the earlier has the smaller handle |
| `HandleSets.QuietCallbacksCoverAll` | icm-1.1/icc/SelectReactor.cpp:290-309 | with callbacks that take nothing out, a loop that ends with the empty set has given a turn to exactly the members |
| `HandleSets.TakenOutHasTurnIff` | icm-1.1/icc/HandleSet.cpp:193-204 | a handle in line that a callback takes out has a turn all the same, in a loop that gets that far, if and only if it shares a word with the handle of the next turn |
| `HandleSets.TakenOutIsCalledBack` | icm-1.1/icc/SelectReactor.cpp:300-306 | over {0, 1, 2}, with handle 1 taken out by the first callback, 1 is called back next |
| `HandleSets.EndsEmpty` | icm-1.1/icc/SelectReactor.cpp:300-306 | unless the limit stops it, the loop leaves the set empty |
| `HandleSets.TurnTaken` | icm-1.1/icc/SelectReactor.cpp:300-306 | a turn and the clearing after it extend the trace, and the look-ahead handle is next |
| `HandleSets.ClearAll` | icm-1.1/icc/SelectReactor.cpp:363-368 | a callback that removes handlers takes exactly their handles out, and the iterator stays ready |
| `HandleSets.DispatchIoSet` | icm-1.1/icc/SelectReactor.cpp:290-343 | whatever callbacks take out of the set, each turn goes to the first handle seen above the last while a member at or above it is left, and is a callback exactly if a handler is registered then; stops only at the limit or with the set empty |
| `AioSlots.ChangeSlot` | icm-1.1/icc/PosixProactor.cpp:1027-1047 | a change of one slot moves the counts of running and deferred slots by that slot |
| `AioSlots.NoneDeferred` | icm-1.1/icc/PosixProactor.cpp:1157-1172 | without a deferred slot the deferred count is 0 |
| `AioSlots.SomeDeferred` | icm-1.1/icc/PosixProactor.cpp:1157-1158 | with a deferred slot the deferred count is not 0 |
| `AioSlots.SomeRunning` | icm-1.1/icc/PosixProactor.cpp:885-886 | with a running slot the started count is not 0 |
| `AioSlots.FillBalances` | icm-1.1/icc/PosixProactor.cpp:1027-1040 | accepting a result into a slot accounts for it once |
| `AioSlots.StartBalances` | icm-1.1/icc/PosixProactor.cpp:1180-1183 | a deferred operation that starts is accounted for once |
| `AioSlots.PostBalances` | icm-1.1/icc/PosixProactor.cpp:674-705 | posting a result accounts for it once |
| `AioSlots.EvictBalances` | icm-1.1/icc/PosixProactor.cpp:1194-1201 | a slot emptied into the queue loses no result and doubles none |
| `AioSlots.DeliverSlotBalances` | icm-1.1/icc/PosixProactor.cpp:937-957 | a slot emptied into the application's hands loses no result and doubles none |
| `AioSlots.DeliverHeadBalances` | icm-1.1/icc/PosixProactor.cpp:741-759 | handing over the head of the queue loses no result and doubles none |
| `AioSlots.AcceptedIsInOnePlace` | icm-1.1/icc/PosixProactor.cpp:685-759 | a result accepted once is in exactly one of running, deferred, queued and delivered, and is delivered at most once; one never accepted is nowhere |
| `PosixProactor.CancellationPosted` | icm-1.1/icc/PosixProactor.cpp:1232-1265 | a deferred operation on the handle is posted as cancelled, after those of the slots before it |
| `PosixProactor.CancellationOrigin` | icm-1.1/icc/PosixProactor.cpp:1232-1265 | nothing else is posted |
| `PosixProactor.CancelCallsGrow` | icm-1.1/icc/PosixProactor.cpp:1258-1264 | aio_cancel is called once for each running operation on the handle, in slot order |
| `PosixProactor.CancelProgressStep` | icm-1.1/icc/PosixProactor.cpp:1232-1265 | one turn of the cancelling loop on the slot table, the queue and the totals |
| `PosixProactor.CancelEnds` | icm-1.1/icc/PosixProactor.cpp:1227-1275 | at the end of the loop exactly the deferred operations on the handle are out and posted; the totals say whether there were any, and whether a call for a running one did not cancel it |
| `PosixProactor.TriedIsPursued` | icm-1.1/icc/PosixProactor.cpp:1174-1203 | a deferred operation that was tried is running, still deferred, or posted with its error |
| `PosixProactor.AnswerMeans` | icm-1.1/icc/PosixProactor.cpp:674-705 | what a callback gets: a posted result is queued, no deferred operation on a cancelled handle is left, and a read or write is running or deferred if there is a slot for it and the system does not refuse |
| `PosixProactor.SweepOn` | icm-1.1/icc/PosixProactor.cpp:836-858 | after the next finished operation is found, every operation running at the start is delivered or was reported in progress, up to that slot, and is untouched beyond |
| `PosixProactor.SweepEnds` | icm-1.1/icc/PosixProactor.cpp:836-858 | when nothing more is found, every operation running at the start is delivered or was reported in progress |
| `PosixProactor.LookFurther` | icm-1.1/icc/PosixProactor.cpp:836-858 | successive scans look at no slot twice |
| `PosixProactor.AiocbProactor.constructor` | icm-1.1/icc/PosixProactor.cpp:488-515 | all slots free, counters 0, nothing accepted |
| `PosixProactor.AiocbProactor.StartAio` | icm-1.1/icc/PosixProactor.cpp:1101-1141 | aio_read or aio_write by the operation code; 0 when started, 1 on EAGAIN, -1 otherwise; counts started operations |
| `PosixProactor.AiocbProactor.AllocateAioSlot` | icm-1.1/icc/PosixProactor.cpp:1055-1094 | the first free slot the operation may use (slot 0 for the notify pipe only), and -1 exactly when there is none |
| `PosixProactor.AiocbProactor.Register` | icm-1.1/icc/PosixProactor.cpp:977-1053 | succeeds exactly when the operation code is valid, an eligible slot is free and aio_read (0) or aio_write (1) does not refuse; the operation then runs, or is deferred, in the first such slot; a rejected result is left nowhere |
| `PosixProactor.AiocbProactor.FullIff` | icm-1.1/icc/PosixProactor.cpp:985-985 | the size counter is below the maximum exactly when a slot is free |
| `PosixProactor.AiocbProactor.StartDeferredAio` | icm-1.1/icc/PosixProactor.cpp:1144-1204 | tries the first deferred operation and nothing else; -1 only on refusal, so internal error 3 is unreachable |
| `PosixProactor.AiocbProactor.RetrySlot` | icm-1.1/icc/PosixProactor.cpp:1174-1203 | started, left deferred, or emptied and posted with the error |
| `PosixProactor.AiocbProactor.PostCompletion` | icm-1.1/icc/PosixProactor.cpp:674-705 | appends the result to the queue; refuses a missing one |
| `PosixProactor.AiocbProactor.CancelAio` | icm-1.1/icc/PosixProactor.cpp:1206-1276 | operations on other handles and running ones stay; a deferred one on the handle is out and posted as cancelled, and nothing else is posted; 1, 0 or 2 exactly for none on the handle, all cancelled, some running one not |
| `PosixProactor.AiocbProactor.Scan` | icm-1.1/icc/PosixProactor.cpp:888-922 | stops at the first running slot that is not in progress; those passed were reported in progress, and no slot is looked at twice in one turn of the wheel |
| `PosixProactor.AiocbProactor.FindCompletedAio` | icm-1.1/icc/PosixProactor.cpp:869-961 | hands over the first finished operation round the wheel with its error and what aio_return answers, and tries the first deferred operation; or none exactly when every running one in the range is reported in progress |
| `PosixProactor.AiocbProactor.Settle` | icm-1.1/icc/PosixProactor.cpp:924-960 | the finished operation is delivered and its slot emptied; its byte count is what aio_return answers, or 0; the first deferred operation, if any, is tried, and nothing else changes |
| `PosixProactor.AiocbProactor.NothingRuns` | icm-1.1/icc/PosixProactor.cpp:885-886 | the shortcut for no started operation says what the full scan would |
| `PosixProactor.AiocbProactor.ServeOne` | icm-1.1/icc/PosixProactor.cpp:852-857 | a request of a callback does exactly what the operation asked for does |
| `PosixProactor.AiocbProactor.Serve` | icm-1.1/icc/PosixProactor.cpp:852-857 | a callback's requests are answered one after the other; running slots stay and nothing leaves the queue |
| `PosixProactor.AiocbProactor.FindNext` | icm-1.1/icc/PosixProactor.cpp:841-850 | the next finished operation is delivered and the first deferred one tried, or all is swept |
| `PosixProactor.AiocbProactor.DeliverOne` | icm-1.1/icc/PosixProactor.cpp:841-858 | one turn of the loop delivers the next finished operation, tries the first deferred one and serves the callback, or ends with all swept |
| `PosixProactor.AiocbProactor.ScanPass` | icm-1.1/icc/PosixProactor.cpp:836-859 | ends, looks at each slot at most once although callbacks refill slots, delivers every operation running at its start that the system does not report in progress during the pass, serves one callback for each delivery, and tries the first operation deferred at its start if it delivers anything |
| `PosixProactor.AiocbProactor.DeliverHead` | icm-1.1/icc/PosixProactor.cpp:747-756 | the head of the queue is delivered and its callback served |
| `PosixProactor.AiocbProactor.ProcessResultQueue` | icm-1.1/icc/PosixProactor.cpp:741-759 | delivers the queue in order, then what callbacks posted meanwhile, serving one callback for each, and leaves it empty; running operations stay |
| `PosixProactor.AiocbProactor.HandleEvents` | icm-1.1/icc/PosixProactor.cpp:801-867 | 1 exactly when something was delivered; everything queued is delivered, and, if the wait did not fail, everything running at the start that is not reported in progress; if it failed running operations stay |
| `DevPollReactors.FirstNoteStays` | icm-1.1/icc/DevPollReactor.cpp:364-368 | a handle noted for resumption keeps its first note until the wait |
| `DevPollReactors.ResumedBeforeWait` | icm-1.1/icc/DevPollReactor.cpp:177-192 | a handler whose callback returned 0, still registered with events, waits armed exactly when someone resumed it or no other handler was noted for its handle before |
| `DevPollReactors.ChangeEffect` | icm-1.1/icc/DevPollReactor.cpp:411-595 | every operation keeps reactor and kernel in step, and arms the handle exactly in the cases named; a report disarms it; otherwise the kernel entry stays or goes |
| `DevPollReactors.PollEventsOfFlag` | icm-1.1/icc/DevPollReactor.cpp:726-754 | what each flag of a mask waits for: read and accept for input, write for output, connect for both, except for exceptions, the others for nothing |
| `DevPollReactors.PollEventsOfUnion` | icm-1.1/icc/DevPollReactor.cpp:726-754 | a mask waits for exactly what its flags wait for |
| `DevPollReactors.WaitsForSomething` | icm-1.1/icc/DevPollReactor.cpp:726-754 | a mask waits for some event exactly when it has one of those five flags |
| `DevPollReactors.CalledForWhatItAwaits` | icm-1.1/icc/DevPollReactor.cpp:295-315 | a callback picked from the reported events is for an event the mask waits for |
| `DevPollReactors.AllEventsCleared` | icm-1.1/icc/EventHandler.h:27-39 | clearing all events leaves at most the flag that is no event |
| `DevPollReactors.CallbackDisarmedIff` | icm-1.1/icc/DevPollReactor.cpp:317-391 | whatever is done to a handle after its event was reported, before its callback and in it, nested waits included, the kernel has it armed if and only if it still has it and one of the changes armed it after the last report |
| `DevPollReactors.QuietThroughoutIff` | icm-1.1/icc/DevPollReactor.cpp:317-391 | the kernel keeps the handle quiet all that time if and only if no change arms it |
| `DevPollReactors.NotedIsFirst` | icm-1.1/icc/DevPollReactor.cpp:364-368 | of several notes for a handle the first one counts |
| `DevPollReactors.SuspensionLastsIff` | icm-1.1/icc/DevPollReactor.cpp:516-545 | a suspended handler stays suspended over the next wait if and only if it is not the first one noted for its handle |
| `DevPollReactors.StaysQuiet` | icm-1.1/icc/DevPollReactor.cpp:639-724 | a suspended handler that nobody resumes or unregisters is not armed by anything else |
| `DevPollReactors.AfterFailure` | icm-1.1/icc/DevPollReactor.cpp:379-383 | the removal after a failed callback unregisters the handler if and only if it waited for nothing else; whatever its close callback and others do short of resuming or unregistering it, it stays suspended and without events |
| `DevPollReactors.DevPollReactor.constructor` | icm-1.1/icc/DevPollReactor.cpp:114-147 | nothing bound, nothing in the interest set, no event parked |
| `DevPollReactors.DevPollReactor.Find` | icm-1.1/icc/DevPollReactor.cpp:60-77 | the entry of a bound in-range handle |
| `DevPollReactors.DevPollReactor.Bind` | icm-1.1/icc/DevPollReactor.cpp:79-96 | refuses a null handler and an out-of-range handle |
| `DevPollReactors.DevPollReactor.Unbind` | icm-1.1/icc/DevPollReactor.cpp:98-112 | clears the whole entry |
| `DevPollReactors.DevPollReactor.RegisterHandlerI` | icm-1.1/icc/DevPollReactor.cpp:411-456 | keeps reactor and kernel in step; a free handle gets the handler, armed for the events of its mask; a bound one keeps its handler, gets the mask added and is armed for all of it unless suspended; fails exactly on bad arguments, without effect |
| `DevPollReactors.DevPollReactor.MaskOpsI` | icm-1.1/icc/DevPollReactor.cpp:639-724 | returns the old mask; each flag is set, added or cleared as asked; an active handle is armed for exactly the new mask, a suspended one is left, an empty mask leaves the interest set |
| `DevPollReactors.DevPollReactor.RemoveBegin` | icm-1.1/icc/DevPollReactor.cpp:466-485 | clears the bits of the registered handler only if it is the one meant, leaves another one's registration alone, and names whom to close |
| `DevPollReactors.DevPollReactor.RemoveEnd` | icm-1.1/icc/DevPollReactor.cpp:487-490 | after the close callback, whatever it did, a handle without events is unbound and not in the interest set |
| `DevPollReactors.DevPollReactor.RemoveHandlerI` | icm-1.1/icc/DevPollReactor.cpp:466-493 | with a close callback that leaves the reactor alone: unregisters exactly when no events are left |
| `DevPollReactors.DevPollReactor.SuspendHandlerI` | icm-1.1/icc/DevPollReactor.cpp:516-545 | an active handle is flagged suspended and out of the interest set, handler and mask stay; on a handle already suspended, around its callback too, it does nothing and returns 0 |
| `DevPollReactors.DevPollReactor.ResumeHandlerI` | icm-1.1/icc/DevPollReactor.cpp:560-595 | a suspended handle is active again and armed for exactly its mask, handler and mask stay; never fails on a bound handle |
| `DevPollReactors.DevPollReactor.ResumeAll` | icm-1.1/icc/DevPollReactor.cpp:177-189 | resumes exactly the handles still bound to the handler noted, so a re-bound handle is never resumed for its old handler |
| `DevPollReactors.DevPollReactor.WorkPending` | icm-1.1/icc/DevPollReactor.cpp:164-199 | when epoll_wait is called, every unsuspended handle with events is armed for exactly its mask; a parked event is returned first |
| `DevPollReactors.DevPollReactor.BeginDispatch` | icm-1.1/icc/DevPollReactor.cpp:261-331 | write before exception before read, always for a reported event; flags the handle suspended and leaves the kernel entry as it is; an error alone clears all events for removal; a stale event is dropped |
| `DevPollReactors.DevPollReactor.EndDispatch` | icm-1.1/icc/DevPollReactor.cpp:350-391 | 0 notes the handler for resumption unless its handle is noted already; less clears the dispatched bits, up to the close callback, if it is still registered |
| `DevPollReactors.HandOver` | icm-1.1/icc/DevPollReactor.cpp:350-371 | a callback that hands its handle over and asks for pending work leaves its own note |
| `DevPollReactors.StaleNoteBlocksResumption` | icm-1.1/icc/DevPollReactor.cpp:361-371 | that note keeps the second handler registered but suspended and disarmed at the next wait |
| `DevPollReactors.RearmedWhileParked` | icm-1.1/icc/DevPollReactor.cpp:240-247 | a registration in a timer callback, before the parked event is dispatched, lets the callback run with its handle armed |
| `DevPollReactors.SelfSuspensionIsUndone` | icm-1.1/icc/DevPollReactor.cpp:521-522 | a handler that suspends itself in its callback is told 0 and armed again at the next wait |
| `MessageQueues.MessageQueue.constructor` | icm-1.1/icc/MessageQueue.cpp:5-25 | an empty queue with its marks |
| `MessageQueues.MessageQueue.IsEmptyInternal` | icm-1.1/icc/MessageQueue.cpp:149-153 | true exactly for the empty sequence |
| `MessageQueues.MessageQueue.IsFullInternal` | icm-1.1/icc/MessageQueue.cpp:155-159 | true exactly from the high-water mark on |
| `MessageQueues.MessageQueue.EnqueueTailInternal` | icm-1.1/icc/MessageQueue.cpp:61-83 | the linked list gains the item at its end and stays in order if and only if the item is not in it and has no successor; a null item is refused without a signal |
| `MessageQueues.MessageQueue.DequeueHeadInternal` | icm-1.1/icc/MessageQueue.cpp:85-112 | the linked list loses its first item, which comes back unlinked; producers are signalled exactly at or below the low-water mark |
| `MessageQueues.MessageQueue.EnqueueTail` | icm-1.1/icc/MessageQueue.cpp:32-48 | on the linked list, exactly the step of a producer in the monitor; never exceeds the high-water mark |
| `MessageQueues.MessageQueue.DequeueHead` | icm-1.1/icc/MessageQueue.cpp:50-59 | on the linked list, exactly the step of a consumer in the monitor; the first message comes back unlinked |
| `QueueMonitor.StepCounts` | icm-1.1/icc/MessageQueue.cpp:32-159 | how each step changes the number of sleeping and woken threads, whichever sleeper a signal picks |
| `QueueMonitor.FifoStep` | icm-1.1/icc/MessageQueue.cpp:61-112 | every step keeps what went in equal to what came out and what is there, within the high-water mark |
| `QueueMonitor.ConsumersStep` | icm-1.1/icc/MessageQueue.cpp:132-147 | every step keeps: a blocked consumer means at least as many consumer wake-ups under way as messages |
| `QueueMonitor.ProducersStep` | icm-1.1/icc/MessageQueue.cpp:114-130 | a step keeps "empty with a blocked producer means a producer wake-up under way" if and only if it is not the last woken producer leaving without a message |
| `QueueMonitor.EveryRunIsFifo` | icm-1.1/icc/MessageQueue.cpp:32-112 | in every interleaving the queue is a bounded FIFO and blocked consumers are served |
| `QueueMonitor.ServedUntilLoss` | icm-1.1/icc/MessageQueue.cpp:32-159 | in every interleaving blocked producers are served up to the first step that loses a wake-up |
| `QueueMonitor.RunServesProducersIff` | icm-1.1/icc/MessageQueue.cpp:32-159 | with a high-water mark of at least 1, blocked producers are served throughout an interleaving if and only if none of its steps loses a wake-up |
| `QueueMonitor.NothingLostWithMessages` | icm-1.1/icc/MessageQueue.cpp:61-65 | without null items no wake-up is lost |
| `QueueMonitor.NeverAllAsleep` | icm-1.1/icc/MessageQueue.cpp:32-193 | producers and consumers are never all asleep together before a wake-up is lost |
| `QueueMonitor.MissingMessageStrands` | icm-1.1/icc/MessageQueue.cpp:61-65 | a run with a null item after which a producer and a consumer sleep for good |

## Left out

- Overflow of counters, ids, times and `size_t` sums, and the cut of sizes to the range of `long`.
- Timer heaps built with size 0 or 1: the constructor's contract says that they miss the invariant; size 1 grows into a table whose new entry reads as limbo, size 0 never grows.
- TimerHeaps.TimerHeap.CancelById: requires an id other than the table size, because the range test lets that one id read past the table.
- TimerHeaps.TimerHeap.ResetInterval: requires an id other than the table size, for the same reason.
- TimerHeaps.TimerHeap.PushFreelist: its branch for an id that is not in limbo is only used by the destructor, so no invariant is stated for it.
- TimerHeaps.TimerHeap.Expire: handlers answer a status and make no other calls on the queue.
- The `handleClose` upcall of a cancellation, the timer heap's iterator, `dump` and `getFirst`, and the one-argument `calculateTimeout`.
- The raw setters and `time_t` operators of `TimeValue`, its conversions and `msec`.
- HandleSets.HandleSet.SetBit: takes the invalid handle or one in range; `FD_ISSET` of the invalid handle, which the `&` of `setBit` evaluates, is not modelled.
- HandleSets.DispatchIoSet: callbacks take handles out of the dispatch set; one that runs a nested event loop, which refills the set, is not modelled. Which handlers are registered at each turn is arbitrary.
- The outer loop of `SelectReactor::dispatch`, its wait and ready sets and its handler map; `resetState` of the handle iterator; the Win32 branches.
- The error and byte fields inside a result object: they travel on the queue entry, or are answers of `FindCompletedAio`, and the log of deliveries does not repeat them. Failure of the result queue's `enqueue_tail`, the linked queue under it, and the notify pipe's write.
- PosixProactor.AiocbProactor.ProcessResultQueue: covers every drain that ends, with callbacks given by a finite script; callbacks that post for ever are not covered.
- PosixProactor.AiocbProactor.HandleEvents: its drain is covered for callbacks given by a finite script.
- The real-time-signal proactor, the asynchronous stream and file classes, and the Win32 proactor.
- The repository's `size_` counter, `unbind_all`, and reference counts of the epoll reactor; mask bits beyond the ten named ones; callbacks that ask to be called again, which are seen only by their last status.
- DevPollReactors.DevPollReactor.BeginDispatch: an event without any known bit, which epoll does not report, is not modelled.
- DevPollReactors.DevPollReactor.RemoveHandlerI: its close callback leaves the reactor alone; RemoveBegin and RemoveEnd are the two halves around any callback.
- Descriptors closed behind the reactor, and data races between threads that do not take turns.
- Timed waits on the message queue, and a high-water mark of 0, with which nothing is ever admitted.
- What the message queue does after an item with a successor, or one already queued, was put in: the contract says that its list is then out of order.
- Sockets, acceptors, connectors, pipes, addresses, logging, configuration, streams, message blocks' data, the protocol classes and the generated stubs: plumbing over code that is not part of this model.
- Destructors and memory reclamation.
