# A verified model of a small x86-64 kernel

This project models the stateful cores of the kernel in Dafny and proves what they promise.
Code that updates state in place is modelled by classes whose methods do the same updates
(free lists threaded through frames and blocks, page-table words, linked rings and queues, the
saved trap frame, byte buffers). Each class is tied to a value-level description, and the results
that span operations or whole runs are lemmas about those descriptions.

| files | what they model |
|---|---|
| `Frame` | the frame allocator: two intrusive lists, regions opened lazily, exact capacity |
| `Processor` | the processor's own page-table walk, by bit positions, after section 4.5 of the Intel SDM, volume 3A |
| `PageEntry`, `PageTree`, `Page` | bit layouts, the four-level tree and the flat map it stands for, demand paging, heap, stacks, frame ownership |
| `Bytes`, `KmallocHeap`, `KmallocMemory`, `Kmalloc` | the pool allocator over bytes, refining an inventory of blocks |
| `List`, `Queue` | the circular doubly linked list and the FIFO |
| `SchedProtocol`, `WaitQueues`, `ProcState`, `Proc`, `Context` | round robin, wait queues threaded through the waiters, polling, exit, and the saved register frame |
| `AtaProtocol`, `Ata` | disk reads under interleaved interrupts, down to the port writes |
| `KeyboardProtocol`, `Keyboard` | the key buffer and its readers |
| `Fat`, `Directory`, `Vfs` | cluster chains, directory decoding and long names, file reading |
| `Printu` | number printing with C's arithmetic |
| `Prelude`, `Chain` | shared definitions: options, distinctness, null-terminated chains |

The main results, in the kernel's terms:

- Memory: at every moment each frame is free, a table, the data of one page, or lost, and a frame
  is lost exactly when a page that already has one faults again. No operation writes into the data
  of a page it is not about, and one that creates entries halts exactly when the tables it needs
  outnumber the free frames. The words of the four-level tree are, for the processor and for the
  kernel's own walk, a flat map by page number. The frame allocator fails exactly at its capacity.
  Live kmalloc regions keep their bytes through every call, the one that exhausts the heap
  included, and all in-bounds writes.
- Scheduling: a runnable process is switched to within as many switches as the ring is long, even
  if it woke up behind a choice already made, and the exact wait is known in every state; wake-ups
  can come at any time of the polling, an exit keeps everyone's place, wait queues stay acyclic and
  disjoint, and every process resumes with the registers it last had.
- Devices: a disk read that returns has its own block; a keyboard reader never meets an empty
  buffer, and the keyboard falls silent for good exactly when 255 characters wait for nobody.
- Files: a directory is one left-to-right decode whatever the sectors, and long names come back,
  as long as no second reader touches the shared name buffer in the middle of one.

## Modelling decisions

- A halt (`HALT_LOOP`) sets a flag after which no operation is allowed; the contracts say exactly
  when it happens.
- Interrupts are parameters. A driver's handler is one atomic step, because it runs with
  interrupts off. `ProcReschedule` takes the wake-ups of each of its windows as an argument, so its
  contract holds for every behaviour of the interrupts; when they run out with all processes
  blocked, it is still halted.
- A directory read is blocked in every sector read. What other directory reads leave in the one
  name buffer meanwhile is an argument of `ReadDir`, one value for each sector.
- The processor reads page-table words by bit positions of its own; physical memory gives each frame
  512 words. It writes none: accessed and dirty bits are not modelled.
- The disk is a function from block numbers to contents. The drive keeps, for its count and its three
  address registers, the byte written before as the high byte.
- `SetAddress` (clone/src/kernel/page.cc:78-81) initialises a local from itself; the model stores
  the address of the pointer it is given.

Where comments and code differ, the model follows the code:

- Stacks are 16 MiB although clone/src/kernel/page.h:7 and clone/src/kernel/page.cc:340 say 2 MB.
- clone/src/kernel/proc.cc:156 enables interrupts although its comment says the opposite; the model
  treats it as a window in which wake-ups happen.
- clone/src/kernel/keyboard.cc:216 says that a reader blocks when the buffer is empty; it always blocks.
- clone/src/kernel/vfs.cc:31 says that the four high bits of a FAT entry are ignored; they are not.
- clone/src/kernel/ata_block_device.cc:262 sends bits 48 to 55 as the sixth byte of the block number.
- `HandlePageFault` overwrites an entry that already has a frame (clone/src/kernel/page.cc:393).
- `num_pages` has six bits (clone/src/kernel/kmalloc.cc:26), so longer runs are given back in part.
- `FrameInit` counts area two from the end of the kernel image, not from its own start
  (clone/src/kernel/frame.cc:66-68).
- `ReadDir` looks at no first byte, so it lists deleted entries (clone/src/kernel/vfs.cc:184-257).
- The comment at clone/src/kernel/vfs.cc:389 takes clusters for sectors; the boot record may say
  otherwise, and nothing checks it.
- `File::Read` starts at a cluster boundary below a positive offset and never moves the offset
  (clone/src/kernel/vfs.cc:84-102).

For the last nine a lemma or contract says exactly which inputs are affected.

## Model

| member | source | states |
|---|---|---|
| `Frame.AlignAddressUp` | clone/src/kernel/frame.cc:17-24 | the result is the least multiple of 4096 that is not below the address, exactly when that multiple does not wrap past 2^64 |
| `Frame.AlignAddressDown` | clone/src/kernel/frame.cc:26-28 | the result is the greatest multiple of 4096 that is not above the address |
| `Frame.TagsInfo.Layout` | clone/src/kernel/frame.cc:60-70 | the two areas FrameInit takes over are frame-aligned, non-empty, inside the memory the boot code maps, and the second starts after the first ends |
| `Frame.ProductsFitIff` | clone/src/kernel/frame.cc:43-78 | the loops' products of a size and an int index are exact for up to 2^19 frames and 1024 regions, and for no more |
| `Frame.TagsInfo.ProductsFit` | clone/src/kernel/frame.cc:43-78 | inside the mapped first GiB no such product overflows |
| `Frame.TagsInfo.ManagedSize` | clone/src/kernel/frame.cc:57-84 | inside the mapped memory, n1 frames in area one and r whole regions in area two make n1 + 512 * r different managed frames; the rest after the last region is thrown away |
| `Frame.TagsInfo.ManagedAre` | clone/src/kernel/frame.cc:60-79 | that same description of the frames: aligned, from the first usable address to the last, with a region counted only if it is whole |
| `Frame.TagsInfo.LeftOver` | clone/src/kernel/frame.cc:68-72 | fewer than 512 whole frames at the end of area two are thrown away |
| `Frame.TagsInfo.InsideAreaTwoIff` | clone/src/kernel/frame.cc:66-70 | area two is counted from the end of the kernel image, not from its own start: its frames are all usable memory if and only if it does not start behind the first of them |
| `Frame.FrameAllocator.FrameInit` | clone/src/kernel/frame.cc:57-84 | the managed frames are, in terms of the boot tags, exactly the whole frames of area one and the frames behind the kernel image whose 2 MiB region ends inside area two; all are available, area one first in address order, then the regions in address order; both lists are null-terminated, and no word of any other frame changes |
| `Frame.FrameAllocator.ThreadList` | clone/src/kernel/frame.cc:39-54 | threading leaves a null-terminated list that visits exactly the blocks of the area, in address order, and writes nothing but their first words |
| `Frame.FrameAllocator.FrameAllocate` | clone/src/kernel/frame.cc:86-120 | a zeroed frame that was available and is so no longer, the most recently freed one first and, when the list is empty, the first frame of the next region; NULL_FRAME exactly when as many frames are outstanding as are managed; no outstanding frame loses a word |
| `Frame.FrameAllocator.FrameFree` | clone/src/kernel/frame.cc:122-128 | exactly this outstanding frame becomes available again and is first in line; both lists stay acyclic, disjoint and null-terminated |
| `Frame.FrameAllocator.Store` | clone/src/kernel/frame.cc:30-33 | a store into a frame that is in use never damages either free list |
| `Frame.InitialLists` | clone/src/kernel/frame.cc:57-84 | right after initialisation the frame list and the unopened regions split the managed frames, with nothing on both sides |
| `Frame.OpeningRegion` | clone/src/kernel/frame.cc:101-119 | opening the first region moves exactly its frames out of the region list |
| `Frame.FrameAllocator.OutstandingCount` | clone/src/kernel/frame.cc:86-128 | outstanding and available frames add up to the managed ones, so running out means that all of them are handed out |
| `PageEntry.VirtualAddressRoundTrip` | clone/src/kernel/page.cc:34-49 | building an address from its six bit fields and taking it apart again gives the fields back |
| `PageEntry.AddressRoundTrip` | clone/src/kernel/page.cc:34-49 | every 64-bit address is the address built from its fields |
| `PageEntry.AddressFields` | clone/src/kernel/page.cc:34-49 | the fields of an address are the very bits by which the processor indexes its tables, with the offset in bits 0 to 11 and bits 48 to 63 on top |
| `PageEntry.EntryFields` | clone/src/kernel/page.cc:52-74 | every field of an entry lies where the processor looks for it: present in bit 0, writable in bit 1, user in bit 2, page size in bit 7, the frame in bits 12 to 51, the kernel's own bits in 52 to 62, no-execute in bit 63 |
| `PageEntry.EntryRoundTrip` | clone/src/kernel/page.cc:52-74 | an entry written to memory as a word reads back with every field as it was |
| `PageEntry.WordRoundTrip` | clone/src/kernel/page.cc:52-74 | every 64-bit word is the word of the entry it reads as, so rewriting one field disturbs no other bit |
| `PageEntry.ZeroEntry` | clone/src/kernel/page.cc:18-21 | a zeroed word reads as an entry that is absent and not allocated; this is why fresh table frames must be zeroed |
| `Page.P4IndexIsPageRange` | clone/src/kernel/page.cc:34-45 | the four indices of an address are the digits of its 36-bit page number in base 512, and P4 index 0 is exactly the pages outside the model |
| `PageTree.WalkIsLookup` | clone/src/kernel/page.cc:113-246 | the walk through four tables in memory finds a slot exactly when the page has a p1 entry, and then the one of that page |
| `PageTree.TranslateIsFlatMap` | clone/src/kernel/page.cc:52-66 | the processor's four-level walk over the words in memory, defined by bit positions with large pages, write, user and execute rights, is the flat map: it succeeds exactly for pages with a frame, at that frame and the address's offset, writable and executable, and for user code exactly if the page is marked so |
| `PageTree.LeafWord` | clone/src/kernel/page.cc:52-66 | the bits of every p1 entry: bit 0 set exactly with a frame, then with bit 1, the frame in bits 12 to 51 and 1 in bits 52 to 62, which are all clear otherwise; bit 2 exactly for user pages |
| `PageTree.DataIsMapped` | clone/src/kernel/page.cc:393-396 | for a page with a frame, the bits of its p1 entry in literal positions, and the processor's whole translation |
| `PageTree.SameSlotSamePage` | clone/src/kernel/page.cc:113-246 | two pages with p1 entries get the same slot if and only if they are the same page |
| `PageTree.CreationKeepsPages` | clone/src/kernel/page.cc:113-246 | creating entries for a range opens its mapped pages to user code and changes no other translation, moves no existing slot, and gives every page of the range a slot |
| `PageTree.LinkChild` | clone/src/kernel/page.cc:132-136 | hanging a zeroed frame below an entry adds one empty table to the tree and nothing else; it needs the frame zeroed and unaliased |
| `PageTree.SetLeaf` | clone/src/kernel/page.cc:393-396 | rewriting one p1 entry changes the mapping of that page only |
| `PageTree.OwnedCount` | clone/src/kernel/page.cc:101-109 | the frames in use are counted once each: one per table below the root, one per mapped page, and those lost to a second fault |
| `Page.Pager.PageInit` | clone/src/kernel/page.cc:248-258 | the heap starts at P4 entry 1, the stacks end after P4 entry 14, and the tree is empty but for its root |
| `Page.Pager.FrameAllocateSafe` | clone/src/kernel/page.cc:101-109 | halts exactly when no frame is available, and otherwise hands out a zeroed one |
| `Page.Pager.GetP1Entry` | clone/src/kernel/page.cc:113-246 | without CREATE it changes nothing and returns the walk's answer; with CREATE it adds exactly the missing tables of this page at one free frame each, and halts exactly when fewer are free; no frame is lost and no word of any page's data is written |
| `PageTree.MissingStep` | clone/src/kernel/page.cc:132-206 | the tables a range of pages misses are those its front misses and those its last page still misses after the front has been created, with nothing counted twice |
| `Page.Pager.NextTable` | clone/src/kernel/page.cc:123-153 | one level of the walk: an existing table is returned as it is, a missing one is created only on request, for one frame; no frame is lost and no page's data written |
| `Page.Pager.PageAllocate` | clone/src/kernel/page.cc:275-287 | hands out the page at the break with entries for that page alone, for exactly its missing tables; returns zero and changes nothing when the heap would reach the stacks; halts exactly when the missing tables exceed the free frames; loses no frame and writes no page's data |
| `Page.Pager.PageAllocateContiguous` | clone/src/kernel/page.cc:262-273 | hands out a run of pages with entries for exactly those, or zero and no change when the run would reach the stacks; halts exactly when the range misses more tables than frames are free, and otherwise uses exactly that many; loses no frame and writes no page's data |
| `Page.Pager.StackAllocate` | clone/src/kernel/page.cc:320-337 | hands out the 16 MiB below the last stack with entries for exactly its pages, or zero and no change when it would reach the heap; halts exactly when those pages miss more tables than frames are free, and otherwise uses exactly that many; loses no frame and writes no page's data |
| `Page.StackBaseRecovered` | clone/src/kernel/page.cc:339-343 | rounding any address inside a stack down to 16 MiB gives the exact base of that stack |
| `Page.HeapLayout` | clone/src/kernel/page.cc:262-287 | after heap growth the heap break is still strictly below the stack break and every page handed out has a p1 entry |
| `Page.StackLayout` | clone/src/kernel/page.cc:320-337 | after a new stack the breaks have still not met and every page of every stack has a p1 entry |
| `Page.Pager.AllocateUserSpace` | clone/src/kernel/page.cc:422-437 | creates entries for exactly the pages from the one of the first byte to the last one that starts before the end, the wrapped 64-bit sum; halts exactly when they miss more tables than frames are free, and otherwise uses exactly that many; loses no frame and writes no page's data |
| `Page.UserRangePagesIff` | clone/src/kernel/page.cc:430-434 | for every 64-bit address and size, the pages gone through are exactly those that meet the requested bytes if and only if the sum does not overflow and the request is not an empty one inside a page |
| `Page.UserPage` | clone/src/kernel/page.cc:430-434 | while it meets no P4 entry 0, the loop goes through consecutive page numbers, whatever the upper 16 address bits are |
| `Page.Pager.HandlePageFault` | clone/src/kernel/page.cc:359-397 | halts exactly below P4 entry 1, on a page without p1 entry, or with no frame left; otherwise the page gets exactly one zeroed frame that was free, its entry's word has bits 0 and 1 set, that frame in bits 12 to 51 and PAGE_ALLOCATED in bits 52 to 62, and the processor translates the address to it; no other translation and no word of any page's data changes, and only the frame the page had before, if any, is lost |
| `Page.Pager.ProgramStore` | clone/src/kernel/page.cc:52-66 | a store to a page with a frame goes to the physical address that the processor translates to, and reaches that frame and no table, no free list and no other page |
| `Page.Pager.ResolveFault` | clone/src/kernel/page.cc:393-396 | the set of lost frames grows exactly by the page's former frame, so nothing is lost when the entry was not allocated |
| `Page.Pager.HandedOutIsMapped` | clone/src/kernel/page.cc:262-337 | every address inside a heap page or stack handed out lies under P4 entries 1 to 14 and has a p1 entry, so its first touch cannot halt while frames remain |
| `Page.Pager.FramesAccountedFor` | clone/src/kernel/page.cc:113-397 | in every state each managed frame is free, a table, the data of exactly one page, or overwritten by a second fault on its page; the four counts add up to the managed memory, and no other operation adds to the last kind |
| `Page.Pager.TableFrames` | clone/src/kernel/page.cc:113-246 | tables live in pairwise different frames, none of them free or used for data |
| `Page.Pager.PageFree` | clone/src/kernel/page.cc:298-318 | halts exactly on a page that was never touched; otherwise exactly its frame becomes free, no other translation and no word of any other page's data changes, and no frame is lost |
| `Page.Pager.PageFreeContiguous` | clone/src/kernel/page.cc:290-295 | halts exactly when some page of the run was never touched; otherwise exactly the run's frames become free; every other page keeps its data and no frame is lost |
| `Page.Pager.StackFree` | clone/src/kernel/page.cc:339-357 | from any address inside a stack, exactly that stack's frames become free; a stack whose pages hold no frames, such as one freed before, releases nothing; every other page keeps its data and no frame is lost |
| `Bytes.WordRoundTrip` | clone/src/kernel/kmalloc.cc:43-51 | a 64-bit link written into bytes reads back as written |
| `Bytes.LittleEndian` | clone/src/kernel/kmalloc.cc:43-51 | a link written into memory has its least significant byte at its own address, each byte eight bits further on, and nothing around it changes |
| `KmallocHeap.MallocKeeps` | clone/src/kernel/kmalloc.cc:57-99 | the chosen block was not live, becomes live with the requested size, and geometry, counts and block states stay consistent; no other live block changes |
| `KmallocHeap.DropKeeps` | clone/src/kernel/kmalloc.cc:101-127 | giving a live block back keeps the inventory consistent, whether it returns to its pool or was a run of pages |
| `KmallocHeap.CarveKeeps` | clone/src/kernel/kmalloc.cc:35-55 | a fresh page splits into blocks that overlap nothing carved before, all of them free and in one pool |
| `KmallocHeap.LiveRegionsDisjoint` | clone/src/kernel/kmalloc.cc:57-99 | no byte belongs to the header or client region of two live blocks |
| `KmallocHeap.PoolConservation` | clone/src/kernel/kmalloc.cc:35-127 | blocks on a pool's free list plus live blocks of that pool are exactly (4096 / block size) times the pages carved for it |
| `KmallocHeap.MallocDropMalloc` | clone/src/kernel/kmalloc.cc:57-127 | a pool block freed right after its allocation is the one the next request of that pool gets |
| `KmallocHeap.PageBlocksFacts` | clone/src/kernel/kmalloc.cc:35-55 | the blocks of a pool page are distinct, lie inside the page and do not overlap |
| `KmallocMemory.HeaderFields` | clone/src/kernel/kmalloc.cc:24-27 | the header byte holds the pool number, and of the page count only the value modulo 64 |
| `KmallocMemory.HoldsRequestIff` | clone/src/kernel/kmalloc.cc:57-99 | among all 64-bit sizes, the block set apart holds header and region exactly below 0x7FFF_F000 bytes; from there on the sum wraps, the cast to int drops the upper half, or the rounding overflows |
| `KmallocMemory.TightestBlock` | clone/src/kernel/kmalloc.cc:57-93 | a request gets the smallest block of 32, 256 or 1024 bytes that holds its header and region, and above that the least number of whole pages |
| `KmallocMemory.WholeRunFreed` | clone/src/kernel/kmalloc.cc:91-92 | all frames of a run are given back if and only if it has at most 63 pages |
| `KmallocMemory.RunBackedIff` | clone/src/kernel/page.cc:290-305 | freeing a run halts unless each of its first `pages % 64` pages has been touched |
| `KmallocMemory.WrittenRunIsBacked` | clone/src/kernel/kmalloc.cc:85-124 | a run whose region has been written from end to end is freed without halting |
| `KmallocMemory.StoreKeeps` | clone/src/kernel/kmalloc.cc:21-27 | writing anything inside a client region leaves every header byte, every free list and every other region as it was |
| `KmallocMemory.TakeKeepsMemory` | clone/src/kernel/kmalloc.cc:68-70 | popping a block and writing its header over the link keeps all three lists and all other headers |
| `KmallocMemory.PushKeeps` | clone/src/kernel/kmalloc.cc:107-121 | threading a freed block back through its own bytes keeps all three lists and all other headers |
| `Kmalloc.Allocator.AllocateNewPool` | clone/src/kernel/kmalloc.cc:35-55 | the bytes of the page it gets form a null-terminated list of exactly its blocks and no byte outside changes; when the heap is exhausted that page is the null page |
| `Kmalloc.Allocator.Kmalloc` | clone/src/kernel/kmalloc.cc:57-99 | while the heap has room for the page or run the request may need, it does over bytes what the abstract allocator does and brings in exactly the page of the new header; the result is address 1, behind a header at null, exactly when there is no room; in both cases no header or client byte of any live block changes |
| `Kmalloc.Allocator.Kfree` | clone/src/kernel/kmalloc.cc:101-127 | the block returns to the pool named in its header, which is the one it came from; a run gives back exactly the frames of the pages its six-bit count names and halts exactly when one was never touched; no other live region loses a byte |
| `Kmalloc.Allocator.ClientLoad` | clone/src/kernel/kmalloc.cc:21-23 | a client's read of a page never touched before brings in that page, exactly, and changes no byte |
| `Kmalloc.Allocator.ClientStore` | clone/src/kernel/kmalloc.cc:21-23 | writes by a client inside its region keep the whole allocator consistent and every other region's contents, and bring in exactly the page written to |
| `Kmalloc.Allocator.Kcalloc` | clone/src/kernel/kmalloc.cc:129-133 | the region comes back all zero, no live byte changes even when the heap is exhausted, and otherwise exactly the pages of the header and the region are brought in |
| `Kmalloc.Allocator.StackAllocate` | clone/src/kernel/page.cc:320-330 | stacks may take the next 16 MiB below the heap's limit at any time: the limit drops by that, or stays when it would reach the heap, and the allocator stays consistent |
| `Kmalloc.Allocator.PageFreeContiguous` | clone/src/kernel/page.cc:290-305 | succeeds exactly when each page of the run has been touched, and then exactly those pages lose their frames |
| `List.NextPreviousInverse` | clone/src/kernel/list.h:71-79 | GetNext and GetPrevious undo each other when no value occurs twice |
| `List.TraversalEndsIffDistinct` | clone/src/kernel/list.h:63-88 | a GetHead/GetNextNoLoop traversal visits the whole list once and in order if no value repeats, and never ends otherwise |
| `List.List.Add` | clone/src/kernel/list.h:20-37 | appends at the end of the ring and keeps prev and next mutually consistent |
| `List.List.GetEntry` | clone/src/kernel/list.h:103-113 | finds the first entry with the value, or null when there is none |
| `List.List.Remove` | clone/src/kernel/list.h:39-61 | takes out the first occurrence and keeps the order of all others; removing the head makes its successor the head |
| `List.List.Unlink` | clone/src/kernel/list.h:58-59 | two pointer writes close the ring around the entry |
| `List.List.GetHead` | clone/src/kernel/list.h:63-69 | the first value, or nothing for an empty list |
| `List.List.GetNext` | clone/src/kernel/list.h:76-79 | the value behind the first occurrence, around the ring |
| `List.List.GetPrevious` | clone/src/kernel/list.h:71-74 | the value before the first occurrence, around the ring |
| `List.List.GetNextNoLoop` | clone/src/kernel/list.h:81-88 | the value behind the first occurrence, or nothing at the end of the list |
| `List.List.IsEmpty` | clone/src/kernel/list.h:90-92 | true exactly for the empty list |
| `List.List.DestroyAll` | clone/src/kernel/list.h:94-98 | ends, with an empty list |
| `Queue.Queue.Add` | clone/src/kernel/queue.h:18-28 | appends at the back |
| `Queue.Queue.GetLastEntry` | clone/src/kernel/queue.h:58-68 | ends, at the entry that was added last |
| `Queue.Queue.Remove` | clone/src/kernel/queue.h:30-42 | takes the front value off, in the order of arrival; nothing for an empty queue |
| `Queue.Queue.Peek` | clone/src/kernel/queue.h:45-51 | the front value, without removing it |
| `Queue.Queue.IsEmpty` | clone/src/kernel/queue.h:53-55 | true exactly for the empty queue |
| `SchedProtocol.StepKeeps` | clone/src/kernel/proc.cc:114-424 | every step keeps each process on at most one queue and there once, marked blocked exactly then, the running process in the ring, and the chosen process runnable |
| `SchedProtocol.AlwaysWellFormed` | clone/src/kernel/proc.cc:114-424 | that holds after every run of wake-ups, creations, blockings, choices, switches and exits |
| `SchedProtocol.RunsWithinOneRound` | clone/src/kernel/proc.cc:116-171 | no starvation: every runnable process that is not running is switched to within n switches on a ring of n, plus one for each process created meanwhile, whatever the others and the interrupts do and whatever choice is pending |
| `SchedProtocol.RunsBeforeTheRoundEndsIff` | clone/src/kernel/proc.cc:116-171 | n - 1 switches are enough exactly when the process is not the one just running and the pending choice is not the process right behind it, as it may be after a wake-up between choice and switch |
| `SchedProtocol.RunsWithinIff` | clone/src/kernel/proc.cc:116-171 | the exact wait in every state: its distance in the ring and, if the pending choice overtakes it, the way from that choice once around; every run keeps this bound and some run keeps no smaller one |
| `SchedProtocol.LongestWait` | clone/src/kernel/proc.cc:116-171 | from every state some legal run without creations passes the process over in all switches but the last of that wait |
| `SchedProtocol.WokenAfterTheChoice` | clone/src/kernel/proc.cc:155-223 | the race between choice and switch, on a ring of three: while process 1 is blocked the last try chooses process 2, then an interrupt wakes process 1 |
| `SchedProtocol.WokenIsPassedOver` | clone/src/kernel/proc.cc:155-223 | from that state two switches pass process 1 over |
| `SchedProtocol.StepBringsNearer` | clone/src/kernel/proc.cc:304-363 | each switch that passes a runnable process over shortens its remaining wait by at least one, even if it was overtaken by an earlier choice; wake-ups, blockings, choices and exits never lengthen it, a creation does by at most one |
| `SchedProtocol.WakingIsMonotone` | clone/src/kernel/proc.cc:155-168 | wake-ups during the polling never take the choice away, they only bring it nearer |
| `SchedProtocol.FirstUnblockedIs` | clone/src/kernel/proc.cc:124-142 | the choice is an unblocked process with no unblocked one before it in round-robin order, and there is none exactly when all are blocked |
| `SchedProtocol.RescheduledIsRun` | clone/src/kernel/proc.cc:146-171 | rescheduling consists of wake-ups and choices only, so all results about runs apply to it |
| `SchedProtocol.RoundSettles` | clone/src/kernel/proc.cc:155-168 | one round of 30 tries settles if some process is unblocked, on the first process in order that is unblocked at its end |
| `SchedProtocol.SettledIsChosen` | clone/src/kernel/proc.cc:155-168 | the choice rescheduling ends with is always the one its final state calls for |
| `SchedProtocol.ExitKeepsRoundRobin` | clone/src/kernel/proc.cc:323-363 | after an exit the scheduler looks at the other processes in the same order as before |
| `SchedProtocol.ExitGoesOnBehind` | clone/src/kernel/proc.cc:339-361 | the next process to run is the first one behind the exiting process in the old ring that is unblocked by then |
| `SchedProtocol.WakeQueued` | clone/src/kernel/proc.cc:375-391 | taking the head off a queue keeps the queues disjoint and free of repetitions |
| `SchedProtocol.EnqueueQueued` | clone/src/kernel/proc.cc:404-421 | a process that is on no queue joins one without disturbing any |
| `SchedProtocol.WokenInOrder` | clone/src/kernel/proc.cc:371-424 | wait queues are first in, first out over any run: the i-th waiter of a queue stays blocked through i wake-ups, moving up one place with each, and the next one wakes it |
| `WaitQueues.UnlinkHeadKeeps` | clone/src/kernel/proc.cc:379-387 | the three writes of a wake-up keep every blocked_next chain acyclic, null-terminated and disjoint from the others, and the flags in agreement |
| `WaitQueues.LinkLastKeeps` | clone/src/kernel/proc.cc:409-419 | the writes of a blocking process do the same |
| `ProcState.PopHead` | clone/src/kernel/proc.cc:378-387 | takes exactly the first waiter off, clearing its link and flag; false and no change on an empty queue |
| `ProcState.LastInQueue` | clone/src/kernel/proc.cc:410-413 | the walk along blocked_next ends, at the last waiter |
| `ProcState.Append` | clone/src/kernel/proc.cc:409-419 | the process becomes the last waiter and is flagged |
| `ProcState.WalkGoesOn` | clone/src/kernel/proc.cc:124-138 | following GetNext from the running process visits the ring in round-robin order and stops after one lap |
| `Proc.Scheduler.ProcInitQueue` | clone/src/kernel/proc.cc:367-369 | the queue is known and empty; no process is affected |
| `Proc.Scheduler.ProcUnblockHead` | clone/src/kernel/proc.cc:375-391 | wakes the longest waiter, and tells whether there was one; no register context changes |
| `Proc.Scheduler.ProcUnblockAll` | clone/src/kernel/proc.cc:395-399 | ends with the queue empty and exactly its waiters unblocked |
| `Proc.Scheduler.GetNextUnblockedProc` | clone/src/kernel/proc.cc:116-142 | the first unblocked process in round-robin order, null exactly when there is none or nothing to choose from |
| `Proc.Scheduler.ProcReschedule` | clone/src/kernel/proc.cc:146-171 | does the abstract rescheduling for every behaviour of the interrupts, and leaves ring, running process and register contexts alone |
| `Proc.Scheduler.Enqueue` | clone/src/kernel/proc.cc:405-421 | the running process becomes the last waiter of the queue, and is blocked |
| `Proc.Scheduler.ProcBlockOn` | clone/src/kernel/proc.cc:404-424 | blocking is the enqueue step, a rescheduling, and a switch of contexts to the chosen process |
| `Proc.Scheduler.ProcYield` | clone/src/kernel/proc.cc:220-223 | yielding is a rescheduling and a switch of contexts to the chosen process |
| `Proc.Scheduler.HandleSyscallYield` | clone/src/kernel/proc.cc:304-320 | the trap frame is saved with the running process and replaced by the chosen one's, all other contexts stay; nothing happens without a running or a chosen process |
| `Proc.Scheduler.ProcRun` | clone/src/kernel/proc.cc:30-40 | with no process nothing changes; otherwise the caller's registers are kept in the main context and the first process starts with its own |
| `Proc.Scheduler.HandleSyscallExit` | clone/src/kernel/proc.cc:323-363 | the process leaves the ring with its context; the main context is restored exactly when it was the last, otherwise the process chosen afterwards resumes with its own registers; without a running process, a choice or a process list nothing changes at all |
| `Proc.Scheduler.ProcCreateKthread` | clone/src/kernel/proc.cc:42-64 | a new process at the end of the ring, on no queue, with the entry point, argument and stack it was given, interrupts enabled, and the address of ProcExit as the word its stack pointer points to |
| `Proc.ThreadStarts` | clone/src/kernel/proc.cc:42-64 | the first run of a kernel thread resumes on a frame with the entry point in slot 16, the argument in slot 15, its stack in slot 19, the kernel's code segment in slot 17, only the interrupt flag in slot 18, and zeros in all other registers |
| `Proc.Scheduler.ProcCreateCopy` | clone/src/kernel/proc.cc:67-87 | the copy has the caller's registers but its own rip and pid, and inherits no queue membership, because a running process is on no queue |
| `Proc.CopyStarts` | clone/src/kernel/proc.cc:66-93 | the first run of a copy resumes on the frame of its creator's trap, slot by slot, but for its own instruction pointer in slot 16 |
| `Proc.Scheduler.SaveState` | clone/src/kernel/proc.cc:237-260 | the twenty registers come from frame slots 1 to 20 in the order of the trap stub |
| `Proc.Scheduler.RestoreState` | clone/src/kernel/proc.cc:263-288 | slots 1 to 20 become the process's registers and slot 0 stays |
| `Context.SaveMatchesStub` | clone/src/kernel/irq_nasm.asm:108-131 | reading the frame the stub pushes gives back every register the processor had, by name |
| `Context.FrameSlots` | clone/src/kernel/irq_nasm.asm:108-131 | the register in each of the twenty slots of the trap frame, by position |
| `Context.RestoreMatchesStub` | clone/src/kernel/irq_nasm.asm:136-157 | restoring another process turns the frame into the very frame that process would have pushed |
| `Context.ResumesWhereItYielded` | clone/src/kernel/proc.cc:304-320 | over any run of yields among any number of processes, each resumes with exactly the twenty slots it had at its own last yield |
| `Context.StartsAsCreated` | clone/src/kernel/proc.cc:42-64 | a process that has not run yet starts with exactly the registers its creator set |
| `AtaProtocol.DecodedExactly` | clone/src/kernel/ata_block_device.cc:260-267 | the drive is asked for the intended block if and only if its number is below 2^40 |
| `AtaProtocol.LockstepAlways` | clone/src/kernel/ata_block_device.cc:47-117 | in every reachable state the two FIFOs have equal length, the i-th waiter made the i-th request, and a command is outstanding exactly while requests are, for the oldest |
| `AtaProtocol.ReturningReadHasItsBlock` | clone/src/kernel/ata_block_device.cc:87-118 | in every run, a ReadBlock that returns finds its own buffer filled with its own block, for numbers below 2^40 |
| `AtaProtocol.WokenAfterCompletions` | clone/src/kernel/ata_block_device.cc:47-67 | the i-th waiter is woken by exactly the (i + 1)-st completion, whatever else happens meanwhile |
| `AtaProtocol.WaiterMoves` | clone/src/kernel/ata_block_device.cc:47-67 | each completion moves every waiter up by one and wakes the first |
| `Ata.AtaDrive.Outb` | clone/src/kernel/ata_block_device.cc:257-268 | the port protocol of a 48-bit drive: count and address registers keep their previous byte as the high byte, and the command latches block number and count if the master drive and block addressing are selected |
| `Ata.AtaBlockDevice.Consume` | clone/src/kernel/ata_block_device.cc:245-269 | exactly these ten port writes, in order; after them a read of one sector of the master drive, at the number the six bytes denote, is outstanding |
| `Ata.AtaBlockDevice.ReadBlock` | clone/src/kernel/ata_block_device.cc:87-114 | refused without effect while no process system runs; otherwise the request and its process join the ends of their queues, and a command goes out exactly when none was outstanding |
| `Ata.AtaBlockDevice.InterruptHandler` | clone/src/kernel/ata_block_device.cc:31-67 | a completion fills the oldest request's buffer, wakes the oldest waiter and starts the next command; the empty-queue branch is unreachable |
| `Ata.AtaBlockDevice.ReadInto` | clone/src/kernel/ata_block_device.cc:51-58 | 256 words from the data port are the block of the outstanding command, and end it |
| `Ata.AtaBlockDevice.ReturnFromRead` | clone/src/kernel/ata_block_device.cc:113-118 | when the woken process goes on, its buffer holds its block |
| `KeyboardProtocol.StepKeepsSafe` | clone/src/kernel/keyboard.cc:219-260 | readers woken but not served never outnumber the characters buffered, and nothing accepted is lost, reordered or a null character |
| `KeyboardProtocol.AlwaysSafe` | clone/src/kernel/keyboard.cc:219-260 | that holds after every run of keys, reads and served readers, and surplus characters never shrink |
| `KeyboardProtocol.NeverServedFromEmptyBuffer` | clone/src/kernel/keyboard.cc:251-254 | the branch that should never happen is unreachable, and delivered followed by buffered characters are the accepted ones in order |
| `KeyboardProtocol.WokenInOrder` | clone/src/kernel/keyboard.cc:219-249 | first come, first served in every run: the i-th waiter is woken by exactly the (i + 1)-st accepted key, by no earlier and no later one |
| `KeyboardProtocol.WaiterMoves` | clone/src/kernel/keyboard.cc:219-238 | an accepted key wakes the first waiter and moves all others up by one; a key that is null or finds the buffer full, a new reader and a served one move nobody |
| `KeyboardProtocol.FullSurplusIsDead` | clone/src/kernel/keyboard.cc:224-227 | once 255 characters wait with no woken reader for them, no key and no read ever gets anything out again |
| `KeyboardProtocol.DeliversIff` | clone/src/kernel/keyboard.cc:219-260 | exactly when the keyboard is dead: from a safe state some run of keys, reads and served readers delivers a character if and only if fewer than 255 characters wait without a woken reader |
| `KeyboardProtocol.DeadStateIsReachable` | clone/src/kernel/keyboard.cc:219-238 | 255 keys with nobody reading lead there |
| `Keyboard.RingPut` | clone/src/kernel/keyboard.cc:224-232 | the index test rejects a key exactly when 255 characters are buffered, and otherwise the store appends it |
| `Keyboard.RingTake` | clone/src/kernel/keyboard.cc:251-259 | the ring is empty exactly when its indices are equal, and otherwise moving the drain index on takes off exactly the oldest character |
| `Keyboard.KeyboardDriver.HandleKeyboardInterrupt` | clone/src/kernel/keyboard.cc:219-238 | an accepted key is appended and wakes the longest waiter; a null or a full buffer changes nothing and wakes nobody |
| `Keyboard.KeyboardDriver.StartRead` | clone/src/kernel/keyboard.cc:241-249 | a reader always joins the waiters, even with characters buffered; refused without a current process |
| `Keyboard.KeyboardDriver.FinishRead` | clone/src/kernel/keyboard.cc:251-259 | a woken reader gets the oldest buffered character, which is never the null character |
| `Fat.Volume.GetNextCluster` | clone/src/kernel/vfs.cc:400-407 | the link when it is a valid cluster, zero otherwise, and always inside the table |
| `Fat.NextIsSpecifiedIff` | clone/src/kernel/vfs.cc:31-32 | the mask for the four high bits is never applied: the link followed is the one the FAT specification means exactly when those bits are clear or the entry is no link anyway |
| `Fat.ClustersApart` | clone/src/kernel/vfs.cc:387-391 | clusters lie one after the other from the computed start of the data region, so different clusters lie in different sectors |
| `Fat.SectorIsSpecifiedIff` | clone/src/kernel/vfs.cc:387-391 | the sector read for a cluster is that cluster's own first sector if and only if clusters are one sector long or it is the first cluster |
| `Fat.DataRegionIsExactIff` | clone/src/kernel/vfs.cc:379-385 | the computed start of the data region is the sector right behind the last copy of the table, `numFats` times `sectorsPerFat` behind the reserved ones, exactly when neither the 32-bit sum nor the 32-bit product of the boot record's fields wraps |
| `Fat.ClustersBehindTables` | clone/src/kernel/vfs.cc:379-391 | when nothing wraps, cluster 2 is right behind the last copy of the table, each further cluster one sector later, and no cluster lies inside any copy |
| `Fat.EndsIffNoLoop` | clone/src/kernel/vfs.cc:180-263 | a walk along a cluster chain ends if and only if no link leads back into the chain |
| `Fat.ByteAtIsChain` | clone/src/kernel/vfs.cc:84-100 | finding a byte by its cluster is indexing into the concatenated sectors of the chain |
| `Fat.ReadsRightIff` | clone/src/kernel/vfs.cc:84-89 | on a long enough chain the byte at the offset is delivered first, whatever the disk holds, if and only if the offset is zero |
| `Fat.StartsRightIff` | clone/src/kernel/vfs.cc:86-89 | the skipping loop stops at a cluster start strictly below every positive offset, by at most 512 bytes |
| `Vfs.File.Read` | clone/src/kernel/vfs.cc:79-105 | refused with nothing written exactly when offset plus length, in 64 bits, exceeds the size; otherwise exactly `length` bytes are written, which in a running process system are those from the start of the cluster reached; the rest of the destination stays, the offset does not move, and exactly the sector buffers taken are freed |
| `Vfs.File.RefusedIff` | clone/src/kernel/vfs.cc:79-83 | reads up to and including the last byte of the file are accepted and all others refused, if and only if the 64-bit sum does not wrap or the wrapped sum is above the size |
| `Vfs.File.FreshReadIsChain` | clone/src/kernel/vfs.cc:79-105 | on a fresh file whose chain has at least ceil(length / 512) clusters these are the first `length` bytes of the chain's concatenated sectors, all from valid clusters |
| `Vfs.File.SkipClusters` | clone/src/kernel/vfs.cc:84-89 | the cluster reached is the start of the chain advanced once per full 512 bytes before the last |
| `Vfs.File.Seek` | clone/src/kernel/vfs.cc:112-118 | moves the offset exactly when it is inside the file |
| `Vfs.Superblock.ReadCluster` | clone/src/kernel/vfs.cc:393-397 | a fresh buffer, in use until it is freed, with the cluster's sector; when the device refuses the read the contents are arbitrary and nobody notices |
| `Vfs.Superblock.FreeCluster` | clone/src/kernel/vfs.cc:98-98 | exactly this buffer, which was in use, is no longer so |
| `Directory.SafeIffInBuffer` | clone/src/kernel/vfs.cc:197-209 | all thirteen characters of a long-name entry land inside the 257-byte buffer if and only if its index is 1 to 19 |
| `Directory.FieldsComeBackIff` | clone/src/kernel/vfs.cc:222-248 | an entry written byte by byte for a cluster and a size is read back with that size, and with that cluster if and only if it is below 2^31, because the shift happens in an int |
| `Directory.DecodeSplit` | clone/src/kernel/vfs.cc:169-266 | decoding may stop and go on between any two entries |
| `Directory.EntriesAcrossSectors` | clone/src/kernel/vfs.cc:180-183 | cutting directory bytes into sectors cuts no entry, so sector boundaries do not matter |
| `Directory.DecodeAppends` | clone/src/kernel/vfs.cc:250-250 | inodes once listed stay as they are |
| `Directory.LongNameComesBackIff` | clone/src/kernel/vfs.cc:188-248 | a stored name of up to 247 ASCII characters, written byte by byte at the positions of its parts, decodes to one inode with exactly the stored size and directory flag, and with the stored cluster exactly below 2^31; it comes back as the same C string if and only if its own terminator or a clean buffer cuts it off |
| `Directory.LongNameAnywhere` | clone/src/kernel/vfs.cc:169-266 | in an undisturbed read, wherever its entries stand in a directory, across sectors or not, a file comes back with the name, cluster, size and directory flag it was stored with, when no orphaned long-name entry precedes it |
| `Directory.UndisturbedIsDecode` | clone/src/kernel/vfs.cc:176-181 | reading sector by sector is one decode of all entries if no other directory read changes the shared name buffer in the middle of a long name |
| `Directory.HarmlessIff` | clone/src/kernel/vfs.cc:176-181 | a change of the buffer while the reader is blocked between two sectors shows in no listing, whatever follows, exactly when no long name is being read or the buffer is left as it was |
| `Directory.TwoReadersLoseParts` | clone/src/kernel/vfs.cc:176-193 | when a second reader starts a long name while the first is blocked in the middle of one, the first one's name comes out cut down to the parts it had still to read |
| `Directory.ShortNameReads` | clone/src/kernel/vfs.cc:226-241 | an 8.3 name reads back as its non-blank characters with a dot before the extension |
| `Directory.ShortNameComesBackIff` | clone/src/kernel/vfs.cc:219-248 | a file with only an 8.3 name, written byte by byte and padded with blanks, comes back with its cluster and size, and with its name and a dot before the extension if and only if there are no blanks inside |
| `Directory.ListedIff` | clone/src/kernel/vfs.cc:184-257 | an entry is listed exactly for the attributes 0x20 and 0x10, whatever its first byte, so deleted entries are listed too; entries with other attributes change nothing |
| `Vfs.Inode.ReadDir` | clone/src/kernel/vfs.cc:169-266 | ends on every chain that ends; for whatever other reads leave in the shared name buffer during each sector read, it lists exactly the decode of the sectors after those changes; nothing for a file; exactly the sector buffers taken are freed |
| `Vfs.Inode.UndisturbedReadDir` | clone/src/kernel/vfs.cc:169-266 | if nobody changes the buffer in the middle of a long name, the listing is one left-to-right decode of the concatenated entries of the chain |
| `Vfs.Inode.ReadSector` | clone/src/kernel/vfs.cc:183-259 | a sector continues the decode where the previous one stopped |
| `Vfs.Inode.ReadEntry` | clone/src/kernel/vfs.cc:184-257 | one entry continues the decode, with the name buffer cleared only at the start of a long name |
| `Vfs.StorePart` | clone/src/kernel/vfs.cc:201-209 | the three loops store the thirteen low bytes in order and nothing else |
| `Vfs.ReadShortName` | clone/src/kernel/vfs.cc:226-240 | the zero-filled buffer holds the 8.3 name |
| `Printu.TruncatingSteps` | clone/src/shared/printu.cc:49-58 | with C's truncating operators every intermediate value fits the type, and magnitude follows unsigned division, for the most negative value too |
| `Printu.ParseDigits` | clone/src/shared/printu.cc:44-62 | reading the digits as a numeral gives the magnitude back |
| `Printu.PrintedRoundTrip` | clone/src/shared/printu.cc:13-22 | reading the sign and digits gives the value back, for every value and both bases |
| `Printu.PrintedInjective` | clone/src/shared/printu.cc:13-22 | different values print differently |
| `Printu.OnlyNumeral` | clone/src/shared/printu.cc:44-62 | the digits are the only numeral of the value without a leading zero |
| `Printu.DigitsAreClean` | clone/src/shared/printu.cc:44-62 | no leading zero, no sign and no terminator among the digits |
| `Printu.AtMostTwentyDigits` | clone/src/shared/printu.cc:44-61 | at most 20 digits in base 10 and 16 in base 16, for every 64-bit value |
| `Printu.DigitCharRoundTrip` | clone/src/shared/printu.cc:25-40 | every digit character reads back as its digit, in both letter cases |
| `Printu.DigitCharIs` | clone/src/shared/printu.cc:25-40 | the sixteen digit characters, in both letter cases |
| `Printu.DigitAt` | clone/src/shared/printu.cc:44-62 | each digit has the value its place gives it: the i-th from the end is the one for base^i |
| `Printu.SignFirst` | clone/src/shared/printu.cc:13-22 | a minus sign comes first exactly for negative values, followed by the numeral of the magnitude |
| `Printu.LettersInCase` | clone/src/shared/printu.cc:25-40 | with upper case no lower-case letter is printed and without it no upper-case one, and none at all in base 10 |
| `Printu.ToChar` | clone/src/shared/printu.cc:25-40 | the digit of the magnitude, and a question mark above 15 |
| `Printu.CountDigits` | clone/src/shared/printu.cc:45-54 | the loop counts exactly the digits of the numeral |
| `Printu.ToString` | clone/src/shared/printu.cc:44-62 | the buffer starts with the numeral and a terminator, and the bytes behind them stay |
| `Printu.PrintNumber` | clone/src/shared/printu.cc:13-22 | for each C type the output is the sign and numeral of the value, in at most 21 characters |

## Left out

- Kmalloc.Allocator.Kmalloc: requires a size below 0x7FFF_F000; KmallocMemory.HoldsRequestIff shows that exactly these requests get a block that holds them. Once the heap is exhausted only the address it returns and the live regions are promised, because the code then threads and hands out memory at null.
- Kmalloc.Allocator.Kfree: takes addresses of live regions only; the code cannot tell others.
- Kmalloc.Allocator.PageFreeContiguous: stands for the pager's method of that name by the set of pages with frames; the two models of memory are not connected, and a call of kmalloc or kfree is one step although the code has no critical section around it.
- Page.Pager.PageFree: requires a page with a p1 entry, because the code dereferences the null pointer it gets for others; so do PageFreeContiguous and StackFree.
- Page.Pager.PageFreeContiguous: requires at most 2^19 pages, because the offset of a page is computed in a 32-bit int.
- Page.Pager.PageAllocateContiguous: requires fewer than 2^19 pages, because the product is computed in a 32-bit int.
- Page.Pager.AllocateUserSpace: ranges that go through P4 entry 0 are excluded, as for GetP1Entry; so are ranges that end in the last 4095 bytes of the address space, where the loop counter wraps to zero and the loop never ends.
- Page.Pager.GetP1Entry: addresses under P4 entry 0, the identity map with its huge pages, are excluded; so are TLB effects and `Setcr3`, whose body is commented out.
- Frame.FrameAllocator.FrameInit: requires at least one frame in area one, one whole region in area two, area one below the kernel image, and everything in the first GiB, which is all that clone/src/kernel/boot.asm:128-141 maps; beyond it the stores to frames would fault, and from 1025 regions or 2^19 + 1 frames on the int products would overflow.
- Frame.FrameAllocator.FrameFree: requires a frame that is outstanding; a second free of the same frame would corrupt the list.
- List.List.Remove: requires that the value is in the list, as the code dereferences the entry; so do GetNext, GetPrevious and GetNextNoLoop.
- Proc.Scheduler.HandleSyscallExit: the freed context, stack and main context are not reused in the model; StackFree and kfree are modelled in their own files. Slot 0 of the trap frame, the link to an outer trap, is not a per-process value.
- Proc.Scheduler.ProcCreateCopy: the child's use of its parent's stack is not modelled.
- Ata.AtaBlockDevice.ReadBlock: the driver's wait queue is a sequence under the contracts of ProcBlockOn and ProcUnblockHead; a process makes one call at a time, into a buffer no other call uses.
- Keyboard.KeyboardDriver.FinishRead: runs as one step, as if no interrupt came between its lines; the wait queue is a sequence as for the disk.
- Vfs.Inode.ReadDir: requires a chain that ends, long-name indices 1 to 19 and a running process system; the first two are characterised exactly by Fat.EndsIffNoLoop and Directory.SafeIffInBuffer, and without the third the code decodes uninitialised memory. The name buffer belongs to the volume instead of being one for all volumes; readers of other volumes count among the other reads.
- Vfs.File.Read: requires a table whose links stay inside it and a destination long enough.
- `CopyPageTableLevel` and `CopyCurrentPageTable`: unused, and they build tables from unaligned memory.
- Port probing, `PollStatus`, the PIC, IDT, GDT and TSS, PS/2 set-up and the boot code: hardware plumbing.
- Reading the master boot record and the boot sector in `Superblock::Create`: field checks; the numbers it reads are parameters of a volume.
- The data segment registers and cr3 of a process context: neither saved in nor restored from the trap frame.
- `exec`, ELF loading, system-call tables, boot tags, `files.cc`, `block_device.cc`: dispatch and composition of the parts modelled here.
- `serial.cc` and `vga.cc`: a simpler ring buffer than the keyboard's, and display.
- The format strings of `printk` and `printu`: dispatch to the number printing modelled here.
