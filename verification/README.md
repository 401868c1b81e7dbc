# A verified model of the collector and of the futex lock

The repository bundles the Boehm-Demers-Weiser garbage collector (`gc/`) and a
futex lock (`atomic_ops/`). This project models their most intricate parts in
Dafny and proves what they are for. To verify it, call
`dafny verify dfyconfig.toml`; nothing here executes the original program.

The configuration is a 64-bit one: 4096-byte blocks, 16-byte granules, word-aligned
pointers, sequentially consistent memory, dirty bits kept by page protection
(`MPROTECT_VDB`), no unmapping of free memory.

| file | what it models |
|---|---|
| `Graph.dfy` | the object graph and reachability |
| `Marking.dfy` | the mark states, the bounded mark stack and the marker's invariant; the mutator |
| `Sweep.dfy` | free lists, blocks waiting to be swept, and what must be kept |
| `Tracing.dfy` | marking as a sequence of steps: which objects overflow the mark stack |
| `Finalize.dfy` | which registered objects get queued for finalization |
| `Ranges.dfy` | the ranges of static data, and when they fit the mark stack |
| `Collector.dfy` | `GC_mark_some`, stopped mark phases, `GC_finalize`, lazy sweeping and the drivers, with the mutator running in between |
| `ParallelMark.dfy` | work stealing by any number of marker threads |
| `Descriptors.dfy`, `ArrayDescriptors.dfy` | typed mark descriptors: their compiler and their interpreter |
| `BlockHeap.dfy` | the allocator of heap blocks: split, coalesce, free lists, accounting |
| `HeaderIndex.dfy` | the two-level header index, traversal, `GC_base` |
| `StopWorld.dfy` | the stop-the-world handshake |
| `Futex.dfy` | the futex lock |
| `BlackList.dfy`, `Exclusions.dfy`, `SizeMap.dfy` | black-list search, root exclusions, size classes |
| `SetSizes.dfy` | two facts about the sizes of sets |

## The main results

**Mostly-parallel collection is sound.** `Marking.Colour` is the invariant of each
mark state: every pointer in a marked, clean object that is not exempt in this state
leads to a marked object or lies in a range still to be scanned. Every access of the
marker to memory may be preceded by any number of mutator steps
(`Collector.Interleave`), each making the block it writes dirty. When
`Collector.StoppedMark` succeeds, in a full or a partial collection and however often
the mark stack overflowed on the way, everything the mutator can reach is marked, the
whole marked set is closed under the pointers of memory, and nothing is marked that
cannot be reached from the roots or from what was marked before. It terminates even if
the stack can never be grown: each overflow follows the marking of a new object
(`Collecting.Progress`). `GC_initiate_gc` is entered only in `MS_NONE` or `MS_INVALID`,
which is a precondition proved at each call.

**When the collector aborts for want of mark stack is known exactly.** Static data is
pushed by `GC_push_all`, which aborts where other pushes overflow. `PushStatics` does so
if and only if the entries needed, whole ranges in a full collection and pages in a
partial one, exceed the stack. It never does, however full and however large the stack
is when the roots are pushed, if and only if the ranges fit the initial stack at its
fullest (`Ranges.AlwaysFitIff`). Full collections have room for 2048 ranges, the
limit on root sets; partial ones always for 511, not always for 512 (`FewFit`,
`TooManyRanges`). The
abort is an outcome of every operation above it, up to `Collector.Run`, and excluded
wherever the ranges fit; what is stated of these operations holds if they are not
aborted.

**Nothing reachable is ever swept.** `Collector.Inv` holds between any two operations
of a run (`Collector.Run`), with finalizers registered, queued and invoked in it.
Objects on free lists and unmarked objects in blocks that wait to be swept are outside
a set that holds all the mutator can reach and all registered objects, and that no
pointer leaves. Sweeping, freeing blocks and dropping free lists leave all the mutator
can reach as it was (`Marking.SameToMutator`). Only the path of
`GC_try_to_collect_inner` that cannot be abandoned clears marks while blocks wait to be
swept, and it drops those before anything is swept.

**Finalization queues exactly what is due**, on the same bounded mark stack and with
the mutator running: a registered object is queued if and only if it was unmarked, no
registered object leads to it by one or more pointers, and marking from it did not
overflow the stack (`Collector.Finalize`). Whether any does, and which one first, is
settled by the heap, the marks and the order of the table before the pass
(`Finalization.OverOK`). The last condition is needed: an unreachable
object that nothing registered leads to is *not* queued if a comb as long as the stack
hangs from it (`CombOverflows`, `FinalizeComb`). It overflows exactly if the trace from
it does (`Collector.MarkFo`), and then at least as many unmarked objects can be reached
from it as the stack has entries. Pointing to many leaves is not enough for that, since
long objects are scanned in parts (`FanFits`).

**The parallel marker finishes only when all is done** (`MarkLocalReturns`) and no
wake-up is lost (`NoDeadlock`). The comment that the count of active threads stays zero
once it has returned to zero does not hold: `LateHelper` is a run in which it rises
again after a thread has left. It does so if and only if the step is that of a thread
just entering (`CountRises`). Of the two conditions under which a thread leaves, the
second follows from the first (`NothingAbove`).

**Descriptors mean what they were made from.** `Typing.RoundTrip` goes through
compiler and marker; `ArrayMeaning` shows that arrays of any length get exactly the
copies of their element's words. `UsableIff` says when the result can be used, and
`UnnoticedIff` for which arrays a failed allocation can go unnoticed: exactly those
whose count is odd at some level of doubling.

**The block allocator keeps the heap an exact partition**, coalesced, listed and
counted, although a split piece sits on the wrong list for a while, and a request that
is exempt from black-listing fails only if no free block is large enough. Any other is
put at the first place in its block that the black lists accept.

**The header index refines a plain map** through allocation, freeing, splitting and
coalescing, `GC_base` finds exactly the objects, and `GC_apply_to_all_blocks` visits
each allocated block once whatever the callback frees.

**The stop-the-world handshake is safe over any number of stops**, including threads
late in leaving their handler and spurious wake-ups. **The futex lock** excludes
mutually and loses no wake-up: while it is free and wanted, it is two steps at most from
being taken.

Where comments and code disagree the model follows the code: `GC_active_count` can
leave zero again (`gc/include/private/gc_pmark.h:112-117`), `GC_first_nonempty` is
updated by every marker (`gc/mark.c:115-119`), block free lists are not sorted by
address (`gc/allchblk.c:359`), and the overlap check called incomplete
(`gc/mark_rts.c:421`) is exact on a sorted table. Mark stack overflow during
finalization is called "not a disaster" (`gc/finalize.c:243-244`), but an object whose
marking overflows in `GC_MARK_FO` is marked itself and so not queued by this collection
(`gc/include/private/gc_pmark.h:436-444`). `GC_make_array_descriptor` compares an
element's size in bytes with a number of bits (`gc/typd_mlc.c:228`). All are modelled
as they are.

## Model

| member | source | states |
|---|---|---|
| Marking.PushContentsKeeps | gc/include/private/gc_pmark.h:137-164 | marking an object and pushing it, even with a stack overflow that discards entries, keeps the invariant of the mark state |
| Marking.PushObjDone | gc/include/private/gc_pmark.h:137-149 | pushing a marked object discharges what the invariant asks of it |
| Marking.CutKeeps | gc/mark.c:637-685 | taking part of the top range off the stack keeps every pending word pending and leaves less work |
| Marking.Scanned | gc/mark.c:777-854 | a word that is no pointer, leads to a marked object, or will be looked at again can be dropped from the range |
| Marking.ScanAdvance | gc/mark.c:1803-1866 | once the marked objects of a block have been pushed, scan_ptr can move past it |
| Marking.ScanEnd | gc/mark.c:1818-1866 | when no block is left to push from, no object is exempt any more |
| Marking.RootsArePushed | gc/mark.c:321-333 | with all blocks and roots pushed the state MS_ROOTS_PUSHED is justified |
| Marking.AllMarked | gc/include/private/gc_pmark.h:460-488 | roots pushed in a stopped world and an empty stack: all that can be reached is marked |
| Marking.AllClosed | gc/include/private/gc_pmark.h:460-488 | then, or when finalization has emptied the stack, every pointer of a marked object leads to a marked object, reachable or not |
| Marking.MutateEvolves | gc/os_dep.c:2757-2850 | each mutator step reaches nothing new and dirties the block it writes |
| Marking.ColourEvolves | gc/include/private/gc_pmark.h:460-488 | mutator steps keep the marker's invariant while the world runs |
| Marking.LeadsLater | gc/include/private/gc_pmark.h:460-488 | a marked set that holds all the mutator can reach stays closed while the mutator runs |
| Marking.InitiatePartial | gc/mark.c:255-276 | reading the dirty bits at the start of a partial collection keeps it, the dirty blocks being exempt now |
| Marking.GarbageIsInvisible | gc/reclaim.c:114-158 | whatever is done to unreachable objects, the mutator reaches the same objects with the same words |
| Marking.ColourSteady | gc/reclaim.c:215-230 | changes to memory and marks keep the marker's invariant if every marked object is in a dirty block, or keeps its words and the marks of what they lead to |
| Collecting.Collector.Interleave | gc/os_dep.c:2757-2850 | any number of mutator steps between two accesses of the marker keep the invariant |
| Collecting.Collector.FindDeferred | gc/mark.c:794-815 | the search from the end stops at the last plausible word; all words above it are settled |
| Collecting.Collector.MarkWord | gc/mark.c:817-843 | reading a word and marking what it points to settles it, though the mutator may write it |
| Collecting.Collector.ScanRange | gc/mark.c:777-854 | all words of a range are settled, the deferred one last; nothing is pushed unless something new is marked |
| Collecting.Collector.MarkTop | gc/mark.c:617-685 | the top entry is scanned, or the first 127 words of a long one; less is left to scan or more is marked |
| Collecting.Collector.MarkFrom | gc/mark.c:603-857 | a page worth of scanning from the top of the stack keeps the invariant, makes progress, and takes the steps of the trace as long as the mutator cannot get at what is scanned |
| Collecting.Collector.PushMarked | gc/mark.c:1732-1779 | all marked objects of a block are pushed, or scanned at once in blocks of small objects, without overflow unless something new is marked |
| Collecting.Collector.PushNext | gc/mark.c:1803-1866 | pushes from the next block the state asks for; scan_ptr becomes 0 only when nothing is exempt any more |
| Collecting.Collector.PushPages | gc/mark.c:1263-1304 | a range is pushed page by page, or in one piece from three quarters of the stack on, and is then pending; aborted if and only if the entries that takes exceed the stack |
| Collecting.Collector.PushStatics | gc/mark.c:1318-1333 | all static data is pending afterwards, pushed in whole or by pages; aborted if and only if the entries needed exceed the stack |
| Ranges.AlwaysFitIff | gc/mark.c:310-351 | the ranges fit from every stack size that GC_mark_some lets through and every size of the stack, if and only if they fit the initial one at its threshold |
| Ranges.FewFit | gc/include/private/gc_priv.h:796-805 | in full collections exactly up to 3072 ranges fit, so 2048, the limit on root sets, do; in partial ones any 511 do, and more than 2048 never do |
| Ranges.TooManyRanges | gc/mark.c:1263-1304 | 512 ranges that do not fit in a partial collection |
| Ranges.RootRanges | gc/mark_rts.c:554-585 | the ranges pushed hold exactly the addresses of the root sets that are not excluded, each where it lies |
| Collecting.Collector.PushRoots | gc/mark_rts.c:554-620 | static data, registers, stacks and the queue of finalizers are marked from or pending when the world is stopped; aborted if and only if the static data does not fit |
| Collecting.Collector.EndScan | gc/mark.c:321-333 | the roots after the last block: MS_ROOTS_PUSHED unless the stack overflowed; aborted if and only if the static data does not fit, and never if it fits the initial stack at its fullest |
| Collecting.Collector.InvalidStep | gc/mark.c:394-420 | a step in an invalid state keeps the invariant and makes progress towards a valid one |
| Collecting.Collector.MarkSome | gc/mark.c:304-425 | every state's step keeps its invariant and strictly decreases a measure; finishing in a stopped world means all reachable objects are marked, and the marked set is closed |
| Collecting.Collector.InitiateGc | gc/mark.c:255-276 | entered in MS_NONE or MS_INVALID only, it establishes the invariant of a stopped mark phase |
| Collecting.Collector.MarkAll | gc/alloc.c:493-505 | marking with the world stopped ends, by the lexicographic measure, whether or not the stack can be grown; on success all reachable objects are marked and the marked set is closed |
| Collecting.Collector.StoppedMark | gc/alloc.c:459-532 | on success, of a full or a partial collection, all that the mutator can reach is marked, the whole marked set is closed, and nothing is marked but what the roots and earlier marks lead to; on failure the collection can go on |
| Sweeping.ListsLater | gc/reclaim.c:266-327 | marking and mutator steps keep free lists and waiting blocks free of what is kept |
| Sweeping.SweepKeeps | gc/reclaim.c:114-158 | sweeping a block puts only unreachable objects on the free lists, invisibly to the mutator and the marker |
| Sweeping.DropKeeps | gc/alloc.c:675-692 | free lists can be unmarked and their links lost, whatever they held, invisibly to the mutator; what is marked then is closed and holds all registered objects |
| Sweeping.FreeBlockKeeps | gc/reclaim.c:313-315 | giving back a block without marks removes nothing that can be reached |
| Sweeping.AllocKeeps | gc/malloc.c:101-124 | an object handed out was unreachable, brings no pointers and keeps the invariant in mid-collection |
| Sweeping.NewBlockKeeps | gc/new_hblk.c:179-200 | a new block of free objects, linked to one another, and all marked if uncollectable, keeps it |
| Collecting.Collector.MutatorRuns | gc/os_dep.c:2757-2850 | mutator steps between operations keep the invariant of the whole heap |
| Collecting.Collector.Sweep | gc/reclaim.c:215-256 | exactly the unmarked objects of the block go on the free lists, each cleared but for a link to a free object; none can be reached, no other word changes and the mutator sees no change |
| Collecting.Collector.ContinueReclaim | gc/reclaim.c:541-557 | waiting blocks are swept until one yields an object, invisibly to the mutator |
| Collecting.Collector.ReclaimAll | gc/reclaim.c:568-610 | empties the reclaim lists, or stops when told to with everything consistent |
| Collecting.Collector.ClearMarks | gc/mark.c:183-250 | uncollectable objects stay marked, the marker is invalid, the free lists stay sound |
| Collecting.Collector.ReclaimBlock | gc/reclaim.c:266-327 | a block without marks goes, a nearly full one is left alone, any other waits to be swept; the mutator sees no change |
| Collecting.Collector.DropLists | gc/alloc.c:675-692 | free lists are unmarked, their links clobbered and dropped, and all reachable objects stay marked |
| Collecting.Collector.FinishCollection | gc/alloc.c:614-746 | exactly the objects due are queued for finalization and taken off the table, overflows being settled as in Finalize; afterwards every block holds a mark and waits to be swept exactly if it is not nearly full |
| Collecting.Collector.MaybeGc | gc/alloc.c:262-310 | a collection that is due is completed or left in progress, with the invariant kept |
| Collecting.Collector.CollectALittle | gc/alloc.c:401-435 | work on a collection in progress brings it strictly nearer to its end |
| Collecting.Collector.FinishInProgress | gc/alloc.c:324-334 | the loop that finishes a collection in progress ends |
| Collecting.Collector.TryToCollect | gc/alloc.c:320-380 | cannot fail unless it may be stopped; on success everything unmarked is freed, queued or in a nearly full block |
| Collecting.Collector.Alloc | gc/malloc.c:101-124 | the object handed out could not be reached and holds no pointers; all other memory is as before |
| Collecting.Collector.NewBlock | gc/new_hblk.c:179-200 | new free objects are added, invisibly to the mutator |
| Collecting.Collector.Run | gc/alloc.c:262-435 | every run of mutator steps, allocations, sweeps, collections, and registrations and invocations of finalizers keeps the invariant, unless aborted, which it is not if the static data fits |
| ParallelMarking.StealOne | gc/mark.c:878-906 | reading a slot of the shared stack keeps the bounds of emptied slots |
| ParallelMarking.TakeKeeps | gc/mark.c:888-902 | emptying a slot whose entry is in hand loses nothing, though another thread may have it too |
| ParallelMarking.GiveKeeps | gc/mark.c:911-939 | copying local entries back loses nothing unless there is no room and the state becomes MS_INVALID |
| ParallelMarking.StepSwap | gc/mark.c:1023-1031 | the racing compare-and-swap of GC_first_nonempty never passes a slot in use |
| ParallelMarking.LeaveKeeps | gc/mark.c:1056-1073 | a thread leaves only when the shared stack and all local stacks are empty |
| ParallelMarking.NextKeeps | gc/mark.c:878-1160 | every step of every thread, late helpers included, keeps the invariant |
| ParallelMarking.MarkLocalReturns | gc/mark.c:997-1094 | from the first return of GC_mark_local on, in every run, nothing is left on any stack and every entry there ever was has been marked from, unless the state is MS_INVALID |
| ParallelMarking.CountsAndBounds | gc/mark.c:1000-1022 | the asserted bounds on my_first_nonempty and GC_first_nonempty, and active <= helpers |
| ParallelMarking.NoDeadlock | gc/mark.c:1036-1083 | while a thread has not returned some thread can take a step without a spurious wake-up |
| ParallelMarking.BusyNext | gc/mark.c:878-1160 | every step keeps it so that, while GC_first_nonempty is not past the top, some thread is about to look there or to advance it, unless all are just entering |
| ParallelMarking.NothingAbove | gc/mark.c:1056-1057 | once a thread has entered and none is active nothing lies above GC_first_nonempty: the second test for leaving always succeeds |
| ParallelMarking.LateHelper | gc/mark.c:1138-1160 | a run in which the active count rises, returns to zero, a thread returns, and a late helper raises the count again |
| ParallelMarking.CountRises | gc/include/private/gc_pmark.h:112-117 | in every run a count that is zero again rises if and only if the step is that of a thread just entering |
| Descriptors.ProcRoundTrip | gc/include/gc_mark.h:89-91 | procedure descriptors fit in a word and give back their index and environment |
| Descriptors.ExtChain | gc/typd_mlc.c:109-160 | the entries stored for a bitmap describe exactly its set bits, arbitrary bits beyond its end being cleared |
| Descriptors.DescribedStays | gc/typd_mlc.c:109-160 | descriptors keep their meaning as the table grows |
| Descriptors.Typing.AddExt | gc/typd_mlc.c:109-160 | on success the table gains a chain for exactly the set bits, on failure nothing changes |
| Descriptors.Typing.MakeDescriptor | gc/typd_mlc.c:531-576 | the words described are exactly those whose bit is set; only for want of memory a superset inside the object |
| Descriptors.Typing.RoundTrip | gc/typd_mlc.c:531-576 | compiling a bitmap and marking with the result examines exactly its words, each once |
| Descriptors.ReversedBitmap | gc/typd_mlc.c:556-567 | the one-word bitmap, built in reverse, has the right bits and tag |
| Descriptors.MarkBitmap | gc/mark.c:687-717 | testing the sign and shifting left examines each described word once and no other |
| Descriptors.TypedMarkProc | gc/typd_mlc.c:378-413 | one entry's words, once each, and the rest of the chain pushed back |
| Descriptors.MarkRange | gc/mark.c:777-854 | the deferred-word scan examines every word of the range exactly once, whatever the words hold |
| Descriptors.MarkLength | gc/mark.c:637-685 | cutting long ranges examines every word exactly once |
| Descriptors.Mark | gc/mark.c:603-857 | for every kind of descriptor exactly the described words are examined, each once |
| ArrayDescriptors.CopiesIff | gc/typd_mlc.c:200-294 | what n copies of an element at a stride are |
| ArrayDescriptors.DoubleMeans | gc/typd_mlc.c:170-177 | doubling a length or bitmap descriptor describes two elements side by side and still fits |
| ArrayDescriptors.ArrayMeaning | gc/typd_mlc.c:200-294 | for every count, word-multiple size and element descriptor the result describes exactly n copies, and its computed size is n * size |
| ArrayDescriptors.NeverSimple | gc/typd_mlc.c:249-263 | the SIMPLE case for an odd count, which would be wrong, is never reached |
| ArrayDescriptors.UsableIff | gc/typd_mlc.c:200-312 | the result can be used if and only if every allocation made succeeded |
| ArrayDescriptors.UnnoticedIff | gc/typd_mlc.c:264-286 | allocations can fail so that COMPLEX is returned without a descriptor, if and only if the count is odd at some level of doubling |
| ArrayDescriptors.OddCount | gc/typd_mlc.c:228-286 | a family of arrays for which it is: any odd count above the threshold of elements that are short and partly pointers |
| ArrayDescriptors.PushComplex | gc/typd_mlc.c:440-490 | succeeds exactly if there is room for one more entry than needed, and then pushes exactly the entries |
| ArrayDescriptors.ArrayMarkProc | gc/typd_mlc.c:493-529 | never overflows the stack; pushes exactly the described words and the descriptor, or the whole object |
| BlockHeap.FlMonotone | gc/allchblk.c:86-93 | larger blocks are never on lower lists and the low lists hold one size each |
| BlockHeap.RemoveKeeps | gc/allchblk.c:289-324 | unlinking a block from the middle, front or end of its doubly linked list keeps all lists and counts right |
| BlockHeap.AddKeeps | gc/allchblk.c:361-388 | adding a block at the head of the list for its size does too |
| BlockHeap.ReplaceKeeps | gc/allchblk.c:529-556 | a split piece takes the place of the whole on a list that may be wrong for its size |
| BlockHeap.Allocator.Conservation | gc/checksums.c:129-144 | used plus free space is the size of the heap |
| BlockHeap.Allocator.Merge | gc/allchblk.c:858-879 | joining two free neighbours keeps partition, lists and counts |
| BlockHeap.Allocator.Free | gc/allchblk.c:824-886 | exactly the block's space becomes free, all other blocks in use are untouched, no two free blocks are neighbours |
| BlockHeap.Allocator.SplitBlock | gc/allchblk.c:529-563 | the heap stays a partition with one piece on the wrong list and next to a free one |
| BlockHeap.Allocator.GetFirstPart | gc/allchblk.c:490-514 | exactly the wanted blocks are taken and everything is right again, from either list |
| BlockHeap.Allocator.DropBlock | gc/allchblk.c:740-758 | a block given up becomes single used blocks and is gone from the free space |
| BlockHeap.Allocator.Consider | gc/allchblk.c:656-768 | which blocks are skipped, where a block is taken and when it is given up: at the first start the black lists accept; only if they accept none is a very large block taken at its start, or a block given up |
| BlockHeap.Allocator.Search | gc/allchblk.c:655-782 | the skip-to-a-better-neighbour rule always ends in a fit: an exempt request fails only if nothing on the list fits |
| BlockHeap.Allocator.AllocNth | gc/allchblk.c:639-813 | terminates, dropped blocks included; returns a block of the wanted size that was free, black-listed only if very large, and changes no block in use |
| BlockHeap.Allocator.EnoughLargeBytesLeft | gc/allchblk.c:61-72 | the highest list from which on there is enough |
| BlockHeap.Allocator.Alloc | gc/allchblk.c:578-632 | the same over all lists; an exempt request that may use any list and is for less than half the address space fails only if no free block is large enough |
| BlockHeap.Allocator.AddToHeap | gc/alloc.c:800-847 | exactly the new blocks, but the first two and the last of the address space, become part of the heap and free |
| HeaderIndex.JumpInside | gc/headers.c:267-281 | a forwarding count leads back inside its block, never past the header |
| HeaderIndex.Index.Chase | gc/allchblk.c:336-339 | chasing counts capped at MAX_JUMP reaches the owning header |
| HeaderIndex.Index.PrevBlock | gc/headers.c:369-398 | the last block at or before an address, even when a jump leaves a bottom index |
| HeaderIndex.Index.NextUsedBlock | gc/headers.c:333-364 | the first allocated block at or after an address |
| HeaderIndex.Index.GetIndex | gc/headers.c:202-248 | a new bottom index is linked in order and changes no entry |
| HeaderIndex.Index.InstallCounts | gc/headers.c:267-281 | exactly the inner blocks get counts, with bottom indices where needed |
| HeaderIndex.Index.FreeBlockEndingAt | gc/allchblk.c:330-355 | following forwarding counts, or the previous block if there are none, finds the free block that ends at an address, exactly if there is one |
| HeaderIndex.Index.RemoveCounts | gc/headers.c:294-301 | exactly the inner entries are cleared |
| HeaderIndex.Index.Split | gc/allchblk.c:490-563 | a header put in the middle of a free block: the index of the plain map with that block cut in two |
| HeaderIndex.Index.Use | gc/allchblk.c:786-794 | the index of the plain map after allocating a block, which Split has cut to size |
| HeaderIndex.Index.Release | gc/allchblk.c:832-853 | and after freeing |
| HeaderIndex.Index.Join | gc/allchblk.c:858-879 | and after coalescing |
| HeaderIndex.Index.ApplyToAll | gc/headers.c:305-329 | every allocated block is visited exactly once although the callback frees and coalesces |
| HeaderIndex.Index.Base | gc/misc.c:332-369 | the start of the allocated object an address lies in, or 0 exactly if there is none |
| StopWorld.ThreadStep | gc/pthread_stop_world.c:147-220 | a step of the suspend handler keeps the count of acknowledgements |
| StopWorld.SendKeeps | gc/pthread_stop_world.c:333-370 | a live thread that GC_suspend_all comes to is sent the signal, never skipped as stopped already |
| StopWorld.WorldStopped | gc/pthread_stop_world.c:372-443 | when GC_stop_world returns every live thread is in its handler with its stack pointer recorded, and the semaphore is zero |
| StopWorld.NextKeeps | gc/pthread_stop_world.c:147-487 | every step keeps the invariant, with threads late from earlier stops and spurious wake-ups |
| StopWorld.Safety | gc/pthread_stop_world.c:372-487 | the same in every run over any number of stops |
| StopWorld.StaysStopped | gc/pthread_stop_world.c:206-209 | no thread leaves its handler before GC_start_world |
| StopWorld.AckComes | gc/pthread_stop_world.c:424-435 | the stopping thread never waits in vain, even for a thread late in leaving the last stop |
| FutexLock.NextKeeps | atomic_ops/atomic_ops.c:192-209 | every step keeps the owner unique and a free lock noticed |
| FutexLock.MutualExclusion | atomic_ops/atomic_ops.c:192-209 | in every run at most one thread holds the lock |
| FutexLock.NoLostWakeup | atomic_ops/atomic_ops.c:239-254 | whenever the lock is free and a thread sleeps, a thread that can step is about to try for it or to wake a sleeper |
| FutexLock.FreeIsTaken | atomic_ops/atomic_ops.c:192-254 | whenever it is free and a thread wants it, asleep or not, at most two possible steps lead to its being taken |
| Tracing.TraceDecides | gc/include/private/gc_pmark.h:436-444 | the steps of the marker from an object overflow the stack if and only if they end in an invalid state |
| Tracing.CombOverflows | gc/mark.c:578-587 | marking from the first node of a comb of unmarked objects as long as the stack overflows it, for every size of the stack |
| Tracing.FanFits | gc/mark.c:615-686 | marking from an object, however long, that leads only to leaves never overflows it |
| Collecting.OverflowIsHeavy | gc/mark.c:578-587 | an overflow takes as many newly marked objects as the stack has entries |
| Finalization.FoResult | gc/include/private/gc_pmark.h:436-444 | what GC_MARK_FO leaves marked, by whichever route, is exactly what the object leads to, and itself on overflow |
| Collecting.Collector.MarkFo | gc/include/private/gc_pmark.h:436-444 | marks exactly what can be reached from the object by one or more pointers, and itself if and only if the trace from it overflows the stack, which needs as many unmarked objects as there are entries; otherwise nothing of the marker but the marks changes |
| Finalization.ThroughIff | gc/finalize.c:524-539 | what gets marked through registered objects, independent of their order |
| Collecting.Collector.MarkThrough | gc/finalize.c:524-539 | the pass over the table marks exactly that, and those objects whose marking overflows, with the mutator running; which one overflows first is known from the start |
| Collecting.Collector.EnqueueChain | gc/finalize.c:543-577 | unmarked entries of a chain are unlinked, marked and queued once each; the count of entries follows |
| Finalization.QueuedExactly | gc/finalize.c:540-577 | the registered objects still unmarked after the pass are exactly those due |
| Finalization.Revived | gc/finalize.c:540-577 | what is marked then, with the queued objects, holds all the mutator and the queue lead to |
| Collecting.Collector.Finalize | gc/finalize.c:491-577 | exactly the registered objects are queued and taken off the table, once each, that are unmarked, not reachable by one or more pointers from a registered object, and did not overflow the stack; all others stay registered, and the marks are closed |
| Finalization.PassResults | gc/finalize.c:524-539 | no object overflows if and only if none does in its turn, given what those before it in the table lead to; the first that does is the first to overflow; each has as many unmarked objects behind it as the stack has entries |
| Finalization.GoneExactly | gc/finalize.c:540-577 | if as many entries go as are queued, exactly the queued ones have |
| Collecting.Collector.FinalizeComb | gc/finalize.c:524-539 | an unreachable registered object that nothing registered leads to is not queued, and stays registered, if a comb as long as the stack hangs from it |
| Collecting.Collector.Register | gc/finalize.c:305-422 | after registering an object the mutator holds it is registered, after removal it is not, and all others are as before; each is once in its chain |
| BlackList.WordSkip | gc/blacklst.c:235-238 | the rest of a word of zeros, also at the end of the table, holds no listed block |
| BlackList.IsBlackListed | gc/blacklst.c:221-250 | 0 exactly if no block is listed; otherwise every earlier start is listed too |
| BlackList.FirstAcceptable | gc/allchblk.c:687-694 | the search stops at the first acceptable start of a free block |
| Exclusions.Table.NextExclusion | gc/mark_rts.c:390-407 | the first range that ends after an address |
| Exclusions.Table.Exclude | gc/mark_rts.c:409-440 | for a range with its ends in order the table stays sorted and disjoint and excludes exactly the new range more; for one with its ends swapped, exactly what is lost and when the order is; it is refused if and only if it overlaps a range, or the table is full and no range can be extended |
| Exclusions.Table.Push | gc/mark_rts.c:443-457 | exactly what is not excluded is pushed, in order |
| SizeMap.Sizes.Extend | gc/misc.c:161-206 | the entry asked for is filled, and no entry with a size too small or too large |
| SizeMap.Sizes.SameNumber | gc/misc.c:193-199 | the size that fits as many objects is never smaller |
| SizeMap.Sizes.SizeFor | gc/malloc.c:101-124 | the retry ends with a size that holds the request |

## Left out

- Weak memory ordering: all accesses are sequentially consistent.
- Unmapping of free memory, the out-of-memory paths of header and map allocation, and headers that cannot be had: allocation of headers always succeeds.
- Marking.MutateEvolves: integers that equal the address of an object never arise; a mutator step stores pointers it has got at or words that point to no object. An integer that looks like a pointer is a root like any other once it is in memory, but cannot be made.
- Collecting.Collector.NewBlock: for the same reason requires that no word of memory already equals one of the new addresses. Black-listing exists to make such words rare.
- Sweeping.NewBlockKeeps: has that requirement too.
- Collecting.Collector.Sweep: free lists are the set of their members; which list an object is on is not modelled, and its link is that to some free object.
- Collecting.Collector.PushStatics: every page of static data counts as dirty, as GC_page_was_dirty has it for pages without a header (`gc/os_dep.c:3069-3080`).
- Collecting.Collector.PushRoots: thread-local free lists and dynamic libraries are not modelled.
- Collecting.Collector.FinishCollection: leak detection is not modelled.
- Collecting.Collector.Finalize: the structures that hold the table entries are not objects of the heap, so marking from `fo_head` is left out. Finalizers use the normal mark procedure; the other procedures, finalization in the Java order and disappearing links are not modelled.
- Collecting.Collector.Register: growth of the table, and an object for which no entry can be allocated.
- Explicit deallocation by GC_free, and stubborn objects.
- Collisions in the dirty-bit table: two blocks never share a bit.
- Parallel marking inside GC_mark_some and sharing of long ranges between markers: the parallel marker is modelled by itself, over abstract entries.
- ParallelMarking.NextKeeps: what marking from an entry produces is arbitrary, and when local entries are given back is left open.
- Per-object mark descriptors, and the ARRAY_TAG case of complex descriptors, which nothing in the source constructs.
- ArrayDescriptors.PushComplex: is not defined for a descriptor tree with a missing part; `UsableIff` says when there is none.
- Descriptors.Mark: a length that is not a whole number of words is not modelled.
- Descriptors.MarkLength: the same; the search for the deferred word would start at an address that is not word-aligned.
- BlockHeap: sizes are counted in blocks; the block map, object kinds and reciprocal of the size in block headers are not modelled. The block before a freed one is found by trying each start; `HeaderIndex.Index.FreeBlockEndingAt` does it by forwarding counts.
- HeaderIndex: the hash table in front of the bottom indices; they are found by key.
- Retries of signals in GC_stop_world, GC_restart_ack_sem, and threads that disappear while signals are sent.
- AO_steal_lock, AO_have_lock, AO_wait_value and the emulation of compare-and-swap.
- Exclusions.Table.Exclude: the table is a sequence that grows, so the shift before the check for a full table is not bounded by an array.
- Building black lists; the search and its use by the allocator are modelled.
