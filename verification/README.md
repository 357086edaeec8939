# Verified model of the bolgenos-ng kernel core

A Dafny model of three parts of the kernel, with proofs of what they promise.

- **The memory stack.** Eleven intrusive free lists that thread through one memory of pages, the buddy system on
  top of them, the page allocator that recovers block sizes from a bitmap of block ends, packed bit arrays, slabs,
  and `kmalloc`/`kfree`.
- **The cooperative scheduler.** The circular task ring, the pass over it while tasks create tasks and exit, reaping,
  and the discipline of the interrupt flag and its software copy.
- **The PS/2 keyboard machine.** Five states that re-dispatch a byte until one of them is done with it.

Page frames are page numbers and frame 0 is the null pointer. `FreeList.next` holds the first word of every page; all
lists of a buddy system share it. `ram` holds the bytes that the bitmaps live in; all bitmaps share it. `size_t` is 32
bits wide: wrap-around is modelled in `AlignUp`, and so in `kmalloc`.

## Main results

- *Canonical form.* At every step of every `put` and `get`, list `k` holds exactly the wholly free aligned blocks of
  order `k` that cannot be merged (`BuddyAllocator.Valid`); the lists are therefore a function of the free set
  (`ListsDetermined`), every free page is in exactly one listed block (`Partition`), and getting a block and putting
  it back restores every list (`GetThenPut`).
- *Replay.* A run of allocations and releases that ends with the same blocks live is forgotten: every later script is
  answered with the same addresses (`ReplayGivesSameAddresses`), and the page allocator answers scripts as the run
  says (`PageAllocator.Execute`); all eleven lists are restored and a repeated script gets the same answers
  (`PageAllocator.ExecuteAndRestore`, `PageAllocator.ExecuteAndReplay`).
- *Completeness.* A request is met if and only if a wholly free, aligned block of the needed power of two, of at most
  1024 pages, exists (`GrantComplete`, `GrantsUpTo1024`).
- *Isolation.* The bytes of a live `kmalloc` address belong to no other live address, no bitmap and no free page
  (`Mallocator.Isolated`), and so do those of a block of pages that another user of the page allocator holds
  (`Mallocator.ForeignApart`). A client that writes there disturbs nothing (`Mallocator.ClientWrite`), and `kmalloc`,
  `kfree`, `alloc_pages` and `free_pages` change no byte that a client holds, in whatever order they are mixed.
- *Memory round trip.* What `kmalloc` takes, `kfree` of its answer restores: free pages, live blocks, live addresses
  and chunks (`ServedThenFreed`).
- *Loop detection.* The tortoise and the hare end on every finite graph of `next` words and report a loop if and only
  if there is one (`FreeList.SanityCheck`).
- *Scheduling.* A pass gives every task in the ring exactly one turn, in ring order, whatever is created meanwhile
  (`Scheduler.Pass`); in the log of all turns, between two consecutive turns of a task every other one that is alive
  has exactly one (`AlternationInLog`, `LogAlternates`); no panic is reachable.
- *Keyboard.* The loop over a byte ends if and only if the byte is not the make code of a key recorded as pressed, and
  then the machine refines a two-state decoder that is defined by a literal layout of codes and characters
  (`HandledLikeDecoder`, `StreamDecoded`). Which streams hang it is known
  from their bytes alone (`HangsOnHeldKeys`).

Two properties are false of the code, and their exact conditions are proved:

- `kmalloc` returns memory of at least the requested size only for requests of at most 2^32 - 4096 bytes; larger ones
  wrap around (`Mallocator.Allocate`, with the concrete sizes in `LargeRequestsWrap`).
- `handle_byte` does not return when the make code of a non-printable key repeats, as it does while a shift key is
  held (`HandledLikeDecoder`, with the concrete bytes in `HeldShiftHangs`).

## Model

| member | source | states |
|---|---|---|
| `Dyadic.RemoveCanonical` | kernel/memory/buddy_allocator.cpp:75-81 | taking a canonical block out of the free set leaves every other canonical block canonical and creates none |
| `Dyadic.AddCanonical` | kernel/memory/buddy_allocator.cpp:36-57 | adding a block whose buddy is not canonical makes exactly that block canonical: merging is complete |
| `Dyadic.CanonicalUnique` | kernel/memory/buddy_allocator.cpp:22-96 | a page lies in at most one canonical block |
| `Dyadic.Cover` | kernel/memory/buddy_allocator.cpp:67-81 | every wholly free aligned block lies inside a canonical one |
| `Dyadic.BuddyFacts` | kernel/memory/free_list.cpp:194-204 | a block and its buddy are disjoint halves of their parent, and being buddies is mutual |
| `ListGraph.MeetingPoint` | kernel/memory/free_list.cpp:149-161 | on every finite graph, cyclic or not, the two walkers meet or the slow one falls off the end |
| `ListGraph.RevisitIsCyclic` | kernel/memory/free_list.cpp:163-165 | reaching an item twice means that null is never reached |
| `ListGraph.LinkedIsSound` | kernel/memory/free_list.cpp:168-174 | a chain that spells out a sequence is acyclic and as long as the sequence |
| `FreeLists.FreeList.SanityCheck` | kernel/memory/free_list.cpp:149-175 | terminates on every closed graph; the loop panic if and only if the chain is cyclic, no panic if and only if it has `items` items |
| `FreeLists.FreeList.CheckedSane` | kernel/memory/free_list.cpp:149-175 | in a valid list neither panic is taken |
| `FreeLists.LowerBuddy` | kernel/memory/free_list.cpp:105-120 | the test of the lower neighbour finds the buddy if and only if the lower buddy is anywhere in the list |
| `FreeLists.UpperBuddy` | kernel/memory/free_list.cpp:122-128 | the same for the upper neighbour, also when there is none |
| `FreeLists.FreeList.FindLastLesser` | kernel/memory/free_list.cpp:138-146 | splits the list at the item: everything before is smaller, everything behind is not; answers the last two of the former |
| `FreeLists.FreeList.Get` | kernel/memory/free_list.cpp:40-49 | takes the head of the list and clears its word; words of pages outside the list keep their values |
| `FreeLists.FreeList.Put` | kernel/memory/free_list.cpp:52-135 | as a set operation: with squashing on and the buddy listed, the buddy goes and the lower of the pair is answered; otherwise the block is added in order |
| `FreeLists.FreeList.Squash` | kernel/memory/free_list.cpp:80-135 | the same for the squashing branches alone |
| `FreeLists.AscendingUnique` | kernel/memory/free_list.cpp:138-146 | a set of pages has one ascending listing |
| `BuddySystem.ListsDetermined` | kernel/memory/buddy_allocator.cpp:22-96 | all eleven lists are a function of the set of free pages, whatever the history |
| `BuddySystem.Partition` | kernel/memory/buddy_allocator.cpp:22-96 | every free page lies in exactly one listed block |
| `BuddySystem.PutStays` | kernel/memory/buddy_allocator.cpp:44-46 | a block that is not merged on its list turns the canonical lists of the free set into those of the larger free set |
| `BuddySystem.PutMerges` | kernel/memory/buddy_allocator.cpp:46-53 | a merge leaves canonical lists of the free set without the buddy, and the doubled block to be put one order up |
| `BuddySystem.BuddyAllocator.constructor` | kernel/memory/buddy_allocator.cpp:13-19 | eleven empty lists, squashing disabled on the last one only |
| `BuddySystem.BuddyAllocator.ComputeOrder` | kernel/memory/buddy_allocator.cpp:104-121 | the largest order of at most ten that fits into the block and that the block is aligned to |
| `BuddySystem.BuddyAllocator.PutAt` | kernel/memory/buddy_allocator.cpp:44-52 | one step of the cascade keeps the lists canonical and either finishes or passes a doubled aligned block on |
| `BuddySystem.BuddyAllocator.PutPiece` | kernel/memory/buddy_allocator.cpp:44-53 | the cascade ends, never leaves the lists, and frees exactly the piece |
| `BuddySystem.BuddyAllocator.Put` | kernel/memory/buddy_allocator.cpp:22-58 | the free set grows by exactly the block, the lists stay canonical, and only words of pages that are then free are written |
| `BuddySystem.BuddyAllocator.ListGet` | kernel/memory/free_list.cpp:40-49 | takes the lowest canonical block of an order, or shows that there is none |
| `BuddySystem.BuddyAllocator.Get` | kernel/memory/buddy_allocator.cpp:61-96 | answers the granted block, removes exactly its pages from the free set, counts one allocation (and one deallocation when it puts pages back), writes only words of pages that were free, and leaves the first word of the block clear |
| `BuddySystem.BuddyAllocator.UndisturbedBy` | kernel/memory/free_list.cpp:4-14 | whatever is written to pages that are not free, the lists stay valid |
| `BuddySystem.GetThenPut` | kernel/ost/src/memory.cpp:155-188 | getting a block and putting it back restores every list exactly |
| `PageGrants.NeededOrder` | kernel/memory/buddy_allocator.cpp:67-69 | the smallest order whose blocks hold the pages |
| `PageGrants.GrantIs` | kernel/memory/buddy_allocator.cpp:75-81 | the granted block is the lowest one of the smallest sufficient order that has any |
| `PageGrants.GrantComplete` | kernel/memory/buddy_allocator.cpp:67-95 | a request is met if and only if it is for at most 1024 pages and a wholly free aligned block of the needed order exists; the answer is aligned to it and wholly free |
| `PageGrants.GrantsUpTo1024` | kernel/memory/buddy_allocator.cpp:67-95 | with an aligned run of 1024 free pages, exactly the requests for at most 1024 pages are met |
| `PageRuns.AllocatedTiled` | kernel/memory/page_allocator.cpp:37-55 | an allocation keeps live blocks and free pages tiling the managed pages, and its block is new |
| `PageRuns.ReleasedTiled` | kernel/memory/page_allocator.cpp:57-79 | so does a release |
| `PageRuns.RunConserves` | kernel/memory/page_allocator.cpp:37-79 | so does every run |
| `PageRuns.ReplayGivesSameAddresses` | kernel/ost/src/memory.cpp:18-41 | a run that ends with the same blocks live restores the free set, and every further script is answered with the same addresses as without it |
| `BitArrays.ExpectedSize` | kernel/libkernelcxx/include/bitarray.hpp:99-107 | the smallest number of bytes that holds the bits |
| `BitArrays.AlignUpIsLeast` | kernel/libkernelcxx/include/mem_utils.hpp:35-43 | rounding up gives the least multiple that is not below the value, unless it wraps around |
| `BitArrays.PagesHold` | kernel/memory/mallocator.cpp:62-63 | the number of pages for so many bytes is the least that holds them |
| `BitArrays.ClearedIsReserved` | kernel/libkernelcxx/include/bitarray.hpp:50-57 | the bytes that are cleared are the bytes that are reserved |
| `BitArrays.MaskTable` | kernel/libkernelcxx/include/bitarray.hpp:69-70 | bit k of a byte is the one worth 2^k |
| `BitArrays.SetBit` | kernel/libkernelcxx/include/bitarray.hpp:80-89 | rewriting one byte through a mask changes one bit and no other |
| `BitArrays.BitArray.constructor` | kernel/libkernelcxx/include/bitarray.hpp:50-57 | all reserved bytes are zero and all bits clear; no other byte changes |
| `BitArrays.BitArray.Get` | kernel/libkernelcxx/include/bitarray.hpp:66-71 | answers the bit of the abstract sequence |
| `BitArrays.BitArray.Set` | kernel/libkernelcxx/include/bitarray.hpp:80-89 | updates the abstract sequence at one index; at most one byte of memory changes |
| `PageAllocators.FirstEnd` | kernel/memory/page_allocator.cpp:66-76 | from the first page of a live block, the first end of a block is its own |
| `PageAllocators.EndsDrop` | kernel/memory/page_allocator.cpp:72-74 | the last page of a live block is the last page of no other |
| `PageAllocators.PageAllocator.constructor` | kernel/memory/page_allocator.cpp:22-35 | the bitmap starts at the first free page and gets as few pages as hold it; all pages behind those are free and no bit is set |
| `PageAllocators.MapFits` | kernel/memory/page_allocator.cpp:27-31 | the pages reserved for the bitmap hold it, and one less would not |
| `PageAllocators.PageAllocator.Allocate` | kernel/memory/page_allocator.cpp:37-55 | the state is that of the run; the address is 4096 times the granted page, or 0x10 for no pages; set bits are exactly the last pages of live blocks; nothing but the bitmap and words of formerly free pages is written, and the block's first word is clear |
| `PageAllocators.PageAllocator.Deallocate` | kernel/memory/page_allocator.cpp:57-79 | frees exactly the pages of the live block and keeps the set bits exactly the ends; null and the zero-size page are ignored |
| `PageAllocators.PageAllocator.ScanBlock` | kernel/memory/page_allocator.cpp:64-76 | recovers the size that the block was allocated with, clears exactly its end, and never leaves the region |
| `PageAllocators.PageAllocator.UndisturbedBy` | kernel/memory/page_allocator.cpp:22-79 | writes outside the bitmap and to pages that are not free keep the allocator valid |
| `PageAllocators.PageAllocator.ExecuteAndRestore` | kernel/ost/src/memory.cpp:18-41 | a script that ends with the same blocks live as it began with restores the free set and every free list exactly |
| `PageAllocators.PageAllocator.ExecuteAndReplay` | kernel/ost/src/memory.cpp:18-41 | after such a script any other gets the answers it would have got in its place; the same script gets the same addresses again |
| `PageAllocators.PageAllocator.Execute` | kernel/memory/page_allocator.cpp:37-79 | a script of requests leaves the state, and gets the answers, that the run over free and live pages prescribes |
| `Slabs.RequiredPagesSuffice` | kernel/memory/slab.cpp:22-25 | the pages are the least number that holds the chunks and the bitmap, and there are none only for no chunks |
| `Slabs.SlabAllocator.constructor` | kernel/memory/slab.cpp:18-41 | initialized if and only if there were pages; then bitmap and chunks are laid out one behind the other and every chunk is free |
| `Slabs.SlabAllocator.Allocate` | kernel/memory/slab.cpp:49-61 | hands out the lowest free chunk and marks only it; null if and only if none is free |
| `Slabs.SlabAllocator.Deallocate` | kernel/memory/slab.cpp:82-92 | frees exactly the chunk that holds the address |
| `Mallocators.SlabSuffices` | kernel/memory/mallocator.cpp:8-12 | every slab that is tried for a request has chunks of at least its size, if and only if the request is at most 2^32 - 4096 bytes |
| `Mallocators.FirstSlabIs` | kernel/memory/mallocator.cpp:43-51 | the slabs that are tried are exactly those whose chunks, of 8 and 16 times the index bytes, are large enough, unless the request wraps around |
| `Mallocators.PagesSuffice` | kernel/memory/mallocator.cpp:62-63 | the pages of the fallback hold the request under the same condition |
| `Mallocators.LargeRequestsWrap` | kernel/memory/mallocator.cpp:47-63 | concrete requests that are answered with an eight-byte chunk, or with no pages at all |
| `Mallocators.Mallocator.constructor` | kernel/memory/mallocator.cpp:16-38 | the start succeeds if and only if the pages for the descriptors, and then those of every slab of the chain in turn, are granted; then the slabs have chunks of 8, 16, 32 and so on bytes, as many as their share of memory holds, in live page blocks of their own, the descriptors' memory is taken and nothing is live |
| `Mallocators.Mallocator.Allocate` | kernel/memory/mallocator.cpp:40-64 | the lowest free chunk of the first slab with large enough chunks that has any becomes live, every earlier slab with large enough chunks being full, and no other chunk changes; or, when all of those are full, a block of the least number of pages from the page allocator; the memory holds the request if and only if the request does not wrap; no byte that a client held changes |
| `Mallocators.Mallocator.Deallocate` | kernel/memory/mallocator.cpp:67-79 | exactly the issuing slab frees exactly the chunk, or the page allocator exactly the block; no byte that a client still holds changes |
| `Mallocators.ServedThenFreed` | kernel/memory/mallocator.cpp:40-79 | freeing the answer of a request restores free pages, live blocks, live addresses and chunks |
| `Mallocators.Mallocator.ServedRoom` | kernel/memory/mallocator.cpp:40-64 | what a request is answered with holds it if and only if the request is at most 2^32 - 4096 bytes |
| `Mallocators.Mallocator.ServedSmallest` | kernel/memory/mallocator.cpp:43-60 | no slab with large enough chunks and a free one is passed over |
| `Mallocators.Mallocator.AllocPages` | kernel/memory/memory.cpp:65-67 | another user may take pages at any time: the block is its own, the invariant of `kmalloc` holds, and no byte that a client held changes |
| `Mallocators.Mallocator.FreePages` | kernel/memory/memory.cpp:70-72 | and give such a block back, with the same guarantees for what clients still hold |
| `Mallocators.Mallocator.ForeignApart` | kernel/sched/task.cpp:36-47 | the bytes of such a block, a task's stack say, are behind no live `kmalloc` address, in no slab and in no free page |
| `Mallocators.Mallocator.ServedForeign` | kernel/memory/mallocator.cpp:40-64 | `kmalloc` leaves the blocks of other users theirs |
| `Mallocators.Mallocator.FreedForeign` | kernel/memory/mallocator.cpp:67-79 | so does `kfree` |
| `Mallocators.Mallocator.FindOwner` | kernel/memory/mallocator.cpp:70-77 | finds the slab that issued a live address, and none for an address from the page fallback |
| `Mallocators.Mallocator.Routing` | kernel/memory/slab.cpp:64-74 | a slab owns a live address if and only if it issued it, and the chunk computed from the address is the one issued |
| `Mallocators.Mallocator.LiveApart` | kernel/memory/mallocator.cpp:40-64 | two live addresses share no byte |
| `Mallocators.Mallocator.Isolated` | kernel/memory/mallocator.cpp:40-64 | the bytes of a live address are in no other live memory, no bitmap, not in the chain's own memory, and in no free page |
| `Mallocators.Mallocator.ClientWrite` | kernel/memory/mallocator.cpp:40-79 | a client that writes to its own memory, from `kmalloc` or from `alloc_pages`, clobbering the word of that page too, leaves every allocator valid and every other byte as it was |
| `Rings.TaskRing.Insert` | kernel/libkernelcxx/include/ext/intrusive_circular_list.hpp:115-130 | the new task stands right behind the first one; the order of the others is kept |
| `Rings.TaskRing.Remove` | kernel/libkernelcxx/include/ext/intrusive_circular_list.hpp:132-152 | the order without the task; answers its successor, or null for the last one |
| `RoundRobin.NoGap` | kernel/sched/scheduler.cpp:37-51 | a task with a turn in two passes has one in every pass between them |
| `RoundRobin.StrictAlternation` | kernel/sched/scheduler.cpp:39-49 | between the turns of a task in two consecutive passes every other task of the later pass has exactly one |
| `RoundRobin.NeighbouringPasses` | kernel/sched/scheduler.cpp:37-51 | consecutive turns of a task in the log of all turns belong to neighbouring passes |
| `RoundRobin.AlternationInLog` | kernel/sched/scheduler.cpp:39-49 | between two consecutive turns of a task in the log every other task in the ring of the later pass has exactly one turn |
| `RoundRobin.LogAlternates` | kernel/sched/scheduler.cpp:39-49 | from the log alone: between two consecutive turns of a task every other task with turns before and after has exactly one |
| `Scheduling.Interrupts.IsEnabled` | kernel/x86/src/irq.cpp:180-186 | panics if and only if the two copies of the flag disagree |
| `Scheduling.Interrupts.Disable` | kernel/x86/src/irq.cpp:196-204 | both copies are clear; answers the former software copy |
| `Scheduling.Interrupts.Unlock` | kernel/threading/src/lock.cpp:10-15 | interrupts are enabled only if they were when the lock was taken |
| `Scheduling.Scheduler.constructor` | kernel/sched/scheduler.cpp:17-28 | the scheduler's task and the main one are in the ring, in this order, created with interrupts disabled; both copies of the flag are then as the software copy was |
| `Scheduling.Scheduler.CreateTask` | kernel/sched/scheduler.cpp:74-88 | the new task stands right behind the scheduler's and carries the current interrupt flag |
| `Scheduling.Scheduler.Act` | kernel/threading/src/lock.cpp:5-15 | a task is created for every creating action, in however deeply nested locked sections, and carries the flag of the place where it was created; the created ones stand in front of the others, and interrupts are as they were |
| `Scheduling.Scheduler.SwitchContext` | kernel/sched/scheduler.cpp:90-104 | panics if and only if one of the two copies of the flag is clear; the flag is saved clear on the one side and loaded from the other; the task becomes the current one and is logged |
| `Scheduling.Scheduler.RunTask` | kernel/sched/task.cpp:49-60 | interrupts are enabled whatever flag was loaded; an exit marks the task and lists it as finished |
| `Scheduling.Scheduler.SwitchTo` | kernel/sched/scheduler.cpp:90-129 | a switch makes the task current, runs it and returns: no panic, interrupts enabled, the task's flag saved, as many tasks created as its actions create |
| `Scheduling.Scheduler.Yield` | kernel/sched/scheduler.cpp:125-129 | the current task gives way to the scheduler's with its flag saved, and interrupts are enabled |
| `Scheduling.Scheduler.Reap` | kernel/sched/scheduler.cpp:148-151 | a finished member leaves the ring and is deleted; no deleted task is in the ring |
| `Scheduling.Scheduler.HandleFinishedTasks` | kernel/sched/scheduler.cpp:145-154 | every finished task is removed and deleted once; the order of the others is kept |
| `Scheduling.Scheduler.CursorMoves` | kernel/libkernelcxx/include/ext/intrusive_circular_list.hpp:75-79 | the cursor moves on to the next task of the pass however many tasks were created |
| `Scheduling.Scheduler.GiveTurn` | kernel/sched/scheduler.cpp:40-47 | one more task has had its turn; the exited tasks are exactly the finished ones |
| `Scheduling.Scheduler.Iterate` | kernel/libkernelcxx/include/ext/intrusive_circular_list.hpp:60-112 | the iteration ends, with one turn for each task that was in the ring when it began |
| `Scheduling.Scheduler.Pass` | kernel/sched/scheduler.cpp:38-50 | the tasks switched to are those in the ring at the start, once each, in order; then as many created ones as the turns create stand in front and those that exited are deleted |
| `Scheduling.ExitedExits` | kernel/sched/scheduler.cpp:137-143 | the tasks that a pass deletes are exactly those of its ring whose turn ends in an exit |
| `Scheduling.Scheduler.ScheduleForever` | kernel/sched/scheduler.cpp:30-52 | any number of passes reach no panic; the tasks switched to are those of a well-formed history of rings, and they alternate strictly; in each pass exactly the tasks whose turns exit die and as many are created as the turns create |
| `Scheduling.Scheduler.StartScheduling` | kernel/sched/scheduler.cpp:54-62 | the same from the first switch into itself |
| `Keys.Translate` | kernel/devices/ps2/src/ps2_keyboard_sm.cpp:15-80 | every byte gives a key below the bound; the release prefix gives none |
| `Keys.ToPrintable` | kernel/devices/src/keyboard.cpp:28-54 | the left shift and the invalid key print nothing |
| `Keys.TranslateInverts` | kernel/devices/ps2/src/ps2_keyboard_sm.cpp:15-80 | each code of the table is the make code of its key, so different codes are different keys |
| `Keys.CodeInverts` | kernel/devices/ps2/src/ps2_keyboard_sm.cpp:15-80 | and each key's make code is in the table |
| `Keys.TypedPlain` | kernel/devices/src/keyboard.cpp:28-54 | the symbol of every make code is the character of a layout given code by code; all other codes have none |
| `Keys.TypedShifted` | kernel/devices/src/keyboard.cpp:56-85 | with the left shift it is the layout's shifted character |
| `Keyboards.BouncesForever` | kernel/devices/ps2/src/ps2_keyboard_sm.cpp:93-112 | the make code of a key recorded as pressed alternates between two states, and no dispatch is done |
| `Keyboards.PrintsOne` | kernel/devices/ps2/src/ps2_keyboard_sm.cpp:137-157 | with one printable key pressed the loop over all keys prints its symbol and clears it, and does nothing else |
| `Keyboards.DecodeKey` | kernel/devices/ps2/src/ps2_keyboard_sm.cpp:137-157 | the two-state decoder, which is defined on codes and characters alone, does what keys and their symbols say: shifted if and only if the left shift is held |
| `Keyboards.HandledLikeDecoder` | kernel/devices/ps2/src/ps2_keyboard_sm.hpp:121-124 | the loop over a byte ends if and only if the byte repeats no pressed key; then within three dispatches, settled, and as the decoder does |
| `Keyboards.StreamDecoded` | kernel/devices/ps2/src/ps2_keyboard_sm.cpp:89-165 | on every stream without such a byte the printed text is the decoder's |
| `Keyboards.HandledIsTracked` | kernel/devices/ps2/src/ps2_keyboard_sm.cpp:93-133 | the keys recorded as pressed are those that a tracker of the held keys that print nothing computes from the bytes |
| `Keyboards.HangsOnHeldKeys` | kernel/devices/ps2/src/ps2_keyboard_sm.cpp:89-165 | a stream is handled to its end if and only if none of its bytes is the make code of a key that prints nothing and that the bytes before it hold down |
| `Keyboards.HeldShiftHangs` | kernel/devices/ps2/src/ps2_keyboard_sm.cpp:102-115 | a repeated make code of the left shift is never done |
| `Keyboards.KbdStateMachine.HandlePrint` | kernel/devices/ps2/src/ps2_keyboard_sm.cpp:137-157 | prints and clears the pressed printable keys in ascending order |
| `Keyboards.KbdStateMachine.HandleOnce` | kernel/devices/ps2/src/ps2_keyboard_sm.cpp:89-165 | each state's handler is its dispatch |
| `Keyboards.KbdStateMachine.HandleByte` | kernel/devices/ps2/src/ps2_keyboard_sm.hpp:121-124 | terminates, stays settled, and does what the decoder does: it appends the layout's character of the code, the shifted one if and only if the left shift is held |

## Left out

- Port I/O, interrupt controller and timer programming, serial line, PS/2 controller and probe: no model of the other side.
- Inline assembly and stack frames: a context switch is the saving and loading of the interrupt flag and of the current task.
- Logging, streams, strings, VGA output, container templates: plumbing that would only add easy members.
- Bytes of the list nodes: the first word of a page is kept in `next`, apart from the bytes of `ram`; a write to a page's bytes may set its word to anything.
- Alignment of slab chunks: the source promises none.
- BuddySystem.BuddyAllocator.Get: requests above 2^31 pages are excluded, because the source shifts past the word width there.
- PageAllocators.PageAllocator.Allocate: excludes the same requests, which it passes on.
- PageAllocators.PageAllocator.Execute: excludes scripts with such requests.
- Mallocators.Mallocator.AllocPages: excludes the same requests, which it passes on.
- BuddySystem.BuddyAllocator.constructor: an allocator is initialized once; initializing it again over a list that is not empty, where the source's item count would be stale, is not modelled.
- Slabs.SlabAllocator.constructor: sizes whose sum wraps around at 32 bits are excluded, because the source computes with the wrapped value.
- Mallocators.Mallocator.constructor: the chain memory is at most 2^30 bytes and a descriptor at least 28 bytes; a failed start, which panics, is the value false of `initialized`.
- Task stacks as objects: a task takes and returns its stack like any other user of the page allocator (`AllocPages`, `FreePages`), but the scheduler's model does not name the block.
- Keyboards.KbdStateMachine.HandleByte: excludes the bytes for which the source never returns; what happens then is stated by `HandledLikeDecoder`.
- Scheduling.Scheduler.Iterate: the cursor's counter does not wrap at 2^32, which would need more tasks than memory holds.
- Interrupt handlers that run while interrupts are enabled, and failing allocations inside task creation: the source has no recovery there.
- A null main routine, which panics at start; task identifiers and names.
