# froggyos memory management and text formatting, in Dafny

This project models the memory-management stack of the froggyos kernel and its
number and format printing, and proves what the layers promise each other.

| file | component |
|---|---|
| `Machine.dfy`, `Wrappers.dfy` | word and page size, optional values |
| `PageFormat.dfy`, `PageTree.dfy`, `Paging.dfy` | entry format, page-table tree, `map_to_page` / `unmap_page` (`kernel/src/arch/paging`) |
| `Ownership.dfy`, `PageRange.dfy`, `Vmm.dfy` | who owns a frame; stretches of pages; `alloc_page`, `mmap`, `munmap` (`kernel/src/memory/vmm.c`) |
| `FrameList.dfy` | the in-place free-frame list (`kernel/src/memory/framealloc.c`) |
| `HeapBreak.dfy` | `grow_heap` under its spinlock, all interleavings (`kernel/src/memory/heap.c`, `kernel/src/klibc/spinlock.asm`) |
| `PebbleLayout.dfy`, `HeapModel.dfy`, `HeapTheorems.dfy` | the bucket/pebble heap as sequences, and its theorems |
| `HeapAnswers.dfy` | which pebble `kmalloc` answers with, and what `kfree` gives back |
| `HeapRuns.dfy` | the closing `memset` of `kmalloc`, and whole runs of `kmalloc` and `kfree` |
| `HeaderChains.dfy`, `BucketAlloc.dfy` | the same heap on linked headers (`kernel/src/klibc/bucketalloc.c`), proved to refine the sequences |
| `DoubleFree.dfy` | a second `kfree` of the same pointer, on those headers |
| `HeapRegion.dfy` | the pages a bucket asks for against the pages `mmap` visits |
| `Digits.dfy`, `NumberFormat.dfy`, `Printf.dfy`, `PrintfLaws.dfy` | numerals, the `*toa` functions, `_vprintf` and what it prints (`kernel/src/klibc/string`) |
| `Strstr.dfy` | `strstr` (`kernel/src/main.c`) |

`dafny verify dfyconfig.toml` checks everything.

## How it is modelled

* **Paging.** Physical memory is a map from frame address to a table of 512 words.
  `Walk` follows indices from a root as 4-level paging does (Intel 64 and IA-32
  Software Developer's Manual, volume 3A, section 4.5); up to three indices reach a
  table (`TableAt`), four reach the mapped frame (`LeafAt`, `Translate`). `TreeOk` is the
  no-aliasing invariant: every table is reached by one path only. Shifts and masks
  are written as division and remainder by powers of two.
* **Ownership.** Every frame of the managed memory has exactly one role: on the free
  list, a table, behind a page that the memory manager mapped, or lost. Pages the boot
  loader mapped may show any frame and are not tracked.
* **Heap.** `HeapModel` describes `kmalloc` and `kfree` on sequences of pebbles with
  explicit addresses. `BucketAlloc.KernelHeap` keeps the headers in two maps from address
  to header, with `prev`, `next`, `first` and `parent` as addresses, walks and rewires them as
  the C code does, and is proved to compute the same heap. A key of the pebble map is an address
  at which memory shows the magic number: a merge leaves the swallowed header where it is, and the
  closing `memset` of `kmalloc` takes the headers away that start in the bytes it clears.
* **Frame list.** The list is an array of words that contains its own header, so that
  `nextFree` can alias `numFrames`, as it does after the list has been drained.
* **grow_heap.** One step per access to shared memory; the spin test is an arbitrary
  stutter, so only safety is claimed.

## Where the code and its intent part ways

* `kmalloc` rounds the request with the page mask (bucketalloc.c:235) where 64 bytes are
  meant (line 156). Both roundings are modelled. The closing `memset` misses every header on every
  heap if and only if the size is safe (`MallocClearsIff`): any size with the 64-byte rounding, and with the
  written one a size that fills its last page or ends in its last 63 bytes. For every other size the
  first `kmalloc` on a new heap of any size already clears the header behind its block (`FirstMallocOverruns`).
* `kfree` trusts the magic number (line 325), which a merge does not clear (lines 178-181, 194-197). With `A`,
  `B`, `C` from three calls of `kmalloc(4096)` on the heap of `kmalloc_init(0x1000)`, the calls `kfree(A); kfree(B); kfree(B)`
  add `B` to `A` twice, and `A` then runs over `C`: `ReachDoubleFree` makes the five legal calls, for either rounding and
  every safe size up to 16384, and states what the sixth would store. For every heap and pebble, a second
  `kfree` of the same pointer is legal again if and only if the first one neither melted the pebble into its left
  neighbour nor gave its bucket back (`SecondFreeLegalIff`). In the first case the headers of the bucket describe no
  layout any more (`DoubleFreeIff`); in the second the header lies in a page that is no longer mapped (`UnmapBucket`).
  The runs of `HeapRuns.Run` are those without a `kfree` of such a header; NULL, addresses without a header and
  pebbles still in their chain, in use or not, are all allowed.
* `kmalloc` creates the new bucket for `size`, not for `size` plus headers (line 264):
  `MallocFailsIff` gives the exact condition under which the request does not fit it.
* `unmap_page` always returns NULL (paging.c:226) although paging.h:107 promises the
  frame, so `munmap` loses every frame. The constant `returnsFrame` selects between the
  two; conservation is proved for both.
* `mmap` and `munmap` compare byte addresses with a page count (vmm.c:64, 72): of `size` pages
  they visit `LoopCount(size)`, which is all of them only for `size <= 1`. `create_bucket` asks for at least
  seventeen, so no bucket is ever wholly mapped (`NeverWhollyVisited`, `MapBucket`). `mmap` answers NULL only for
  a heap end of 0 and ignores what `alloc_page` says, so `kmalloc` never learns that the frames ran out.
* `alloc_page` does not give back the frame it popped when it fails, and `init_vmm` maps
  the first heap page that `kmalloc_init` maps again; such frames are counted as lost.
* `pop_frame_list` compares with the list header and not with the first slot
  (framealloc.c:47). Popping a drained list answers NULL once and destroys the list:
  `PopEmpty`, `PopDrainedTwice`. `Paging` and `VirtualMemory` use the intended contract, NULL exactly when
  the list is empty.
* `itoa` clears one byte too few for a negative number that uses all the digits of its table entry, so
  that its text runs on into what the buffer held (`Itoa`, `ItoaOverruns`); that can happen in every base but
  2, 3, 8, 9 and 10 (`OverrunBases`). It also negates the smallest integer
  to itself (`NegationWraps`). The sign test of `iltoa` looks at an unsigned word and never succeeds.
* `map_to_page` uses CR3 unmasked (paging.c:59) and `active_pml4_table` masked; where both
  are used the model asks for a CR3 whose low twelve bits are clear.

## Model

| member | source | states |
|---|---|---|
| PageFormat.DecodeEncode | kernel/src/arch/paging/paging.h:75-93 | reading the address out of an encoded entry gives it back for exactly the page-aligned addresses below 2^51, and every encoded entry is present |
| PageFormat.EncodeWord | kernel/src/arch/paging/paging.h:86-93 | the stored word has bits 0 and 1 set, the address of the frame and every other bit clear |
| PageFormat.EncodeHighBits | kernel/src/arch/paging/paging.h:75-93 | bit 51 of an address is stored and not read back, the bits above it are not stored |
| PageFormat.IndicesAreDigits | kernel/src/arch/paging/paging.c:166-175 | the four indices are the base-512 digits of the page number, most significant first |
| PageFormat.IndicesInjective | kernel/src/arch/paging/paging.c:166-175 | two addresses have the same four indices if and only if they agree in bits 12 to 47 |
| PageTree.WalkAvoiding | kernel/src/arch/paging/paging.c:75-138 | under the no-aliasing invariant a store to one entry leaves every walk alone that does not pass through that entry |
| PageTree.LinkTable | kernel/src/arch/paging/paging.c:81-92 | zeroing a fresh frame and linking it changes what is reached along exactly one path |
| PageTree.LinkGrows | kernel/src/arch/paging/paging.c:103-112 | linking the top free frame keeps the tree free of aliases and disjoint from the free list, turns exactly that frame into a table and changes no translation |
| PageTree.LeafRemaps | kernel/src/arch/paging/paging.c:138-138 | a leaf store changes the translation along exactly one path and no table |
| PageTree.RemappedByAddress | kernel/src/arch/paging/paging.c:41-142 | remapping one path means: every address of that page moves, and every address differing in bits 12 to 47 translates as before |
| PageTree.GrownTrans | kernel/src/arch/paging/paging.c:99-136 | gaining tables from the free list composes over the three levels |
| PageTree.LinkWords | kernel/src/arch/paging/paging.c:82-92 | zeroing and linking a frame changes one word of the tree, to the frame's address plus 3 |
| PageTree.WritableIff | kernel/src/arch/paging/paging.c:75-138 | a page with a basic leaf entry is writable through all four levels if and only if the links that were there before allow it |
| Paging.PageTables.CreateNewPageTable | kernel/src/arch/paging/paging.c:12-39 | pops and zeroes the top frame, or returns NULL and changes nothing when none is left |
| Paging.PageTables.Descend | kernel/src/arch/paging/paging.c:81-97 | one level of the walk: follows a present entry unchanged, else links one new table, else fails without a change |
| Paging.PageTables.ReachPageTable | kernel/src/arch/paging/paging.c:75-136 | reaches the last table exactly when the missing tables do not outnumber the free frames; takes one frame per missing table, keeps what it linked on failure, and changes no translation |
| Paging.PageTables.MapToPage | kernel/src/arch/paging/paging.c:41-142 | succeeds if and only if the missing tables do not outnumber the free frames; then only that page's translation changes, to the frame, and its leaf word is the frame plus 3; on exhaustion it returns NULL with every translation unchanged; tables gained are exactly the frames popped, and no word of the tree changes but absent entries that become present writable links |
| Paging.MappedWritable | kernel/src/arch/paging/paging.c:90-138 | a page it has mapped can be written through all four levels if and only if the links it found on the way allow it |
| Paging.WritableTree | kernel/src/arch/paging/paging.c:90-138 | in a tree whose present entries all allow writing, as that of create_kernel_page_tables, every mapped page is writable through all four levels |
| Paging.PageTables.CreateKernelPageTables | kernel/src/arch/paging/paging.c:144-164 | from four or more frames it uses exactly four and the new tree is the identity on 0x1000 up to 2 MiB and undefined elsewhere; from fewer it maps nothing at all; every present entry allows writing |
| Paging.PageTables.FetchPageTableEntry | kernel/src/arch/paging/paging.c:183-213 | the loop finds an entry if and only if the address translates, and it is the slot that the unrolled walk writes |
| Paging.PageTables.UnmapPage | kernel/src/arch/paging/paging.c:215-227 | a translated page loses its translation and no other page does: its leaf word becomes zero and no other word changes; the result is NULL as written, the frame as documented |
| Paging.PageTables.MapThenUnmap | kernel/src/arch/paging/paging.c:41-227 | mapping an unmapped page and unmapping it again restores the translation of every address |
| Ownership.MappingKeeps | kernel/src/memory/vmm.c:31-48 | mapping a popped frame keeps every frame in exactly one role; the frame it replaces becomes lost |
| Ownership.GrowthKeeps | kernel/src/memory/vmm.c:44-47 | tables taken from the free list, also by a mapping that then fails, keep every frame in exactly one role |
| Ownership.UnmappingKeeps | kernel/src/memory/vmm.c:71-81 | unmapping a managed page moves exactly its frame to the lost ones |
| Ownership.PushKeeps | kernel/src/memory/vmm.c:75-76 | pushing a lost frame back keeps every frame in exactly one role |
| Ownership.PushKeepsIff | kernel/src/memory/vmm.c:73-76 | pushing a frame keeps every frame in exactly one role if and only if nobody owned it; a frame that a page of somebody else showed is not such a frame |
| Ownership.ReturnKeeps | kernel/src/memory/vmm.c:73-76 | unmapping a managed page and pushing its frame moves the frame from the page to the list and leaves every other frame in its role |
| VirtualMemory.LoopCountIsSize | kernel/src/memory/vmm.c:64-72 | the byte-counting loops visit all the pages asked for if and only if at most one was asked for |
| VirtualMemory.RoundsLeft | kernel/src/memory/vmm.c:64-72 | round k of those loops takes place if and only if 4096 * k is below the page count |
| VirtualMemory.Vmm.AllocPage | kernel/src/memory/vmm.c:31-48 | for a non-null address succeeds if and only if one frame more than the missing tables is free, and uses exactly that many; otherwise NULL, no translation changes and the popped frame is lost; ownership is kept |
| VirtualMemory.Vmm.GrowHeap | kernel/src/memory/heap.c:21-33 | hands out the old end and moves it by whole pages |
| VirtualMemory.Vmm.Mmap | kernel/src/memory/vmm.c:54-69 | for every free list: the first `done` pages get frames, and if that is not all the loop visits, the list is exhausted; every frame that left the list is a new table, behind one of these pages, or the one popped by the round that failed; besides that one only frames behind managed pages among them are lost; no other page changes; ownership is kept |
| PageRange.TrailProgress | kernel/src/memory/vmm.c:64-66 | the same after every round of the loop, and four frames a page are always enough |
| PageRange.TablesCount | kernel/src/memory/vmm.c:44-44 | the tables gained number the frames that left the list for them |
| VirtualMemory.Vmm.Munmap | kernel/src/memory/vmm.c:71-81 | exactly the visited pages stop translating; frames go back to the list when unmap_page returns them and are lost when it does not; ownership is kept, whatever else the tree maps |
| VirtualMemory.Vmm.Run | kernel/src/memory/vmm.c:31-81 | every run of the three calls keeps free list, tables, mapped frames and lost frames a partition of the same initial frames, and moves the heap end by exactly the pages asked of mmap; each call has its stated effect on what was owned before it; when unmap_page returns frames, the munmap calls must spare the pages that were mapped before the run |
| HeapRegion.NeverWhollyVisited | kernel/src/klibc/bucketalloc.c:22-28 | create_bucket asks for 17 pages or more and mmap visits fewer than it asks for; of the 17 pages of the first bucket one |
| HeapRegion.MapBucket | kernel/src/klibc/bucketalloc.c:26-28 | behind the pages that mmap's loop visits, every page of a new bucket translates as it did before the call; the visited ones are mapped unless the free list is exhausted |
| HeapRegion.UnmapBucket | kernel/src/klibc/bucketalloc.c:82-82 | after the munmap of remove_bucket exactly the visited pages are unmapped, among them the page that holds the bucket's first pebble header |
| FrameList.PushHolds | kernel/src/memory/framealloc.c:31-37 | the stores of a push turn memory that holds a stack into memory that holds it with one more element |
| FrameList.PopHolds | kernel/src/memory/framealloc.c:39-57 | a pop of a non-empty list returns the top and leaves memory that holds the rest |
| FrameList.OnlyHeader | kernel/src/memory/framealloc.c:31-57 | a push stores to the header and one slot, a pop to the header only |
| FrameList.PopEmpty | kernel/src/memory/framealloc.c:39-57 | a pop of an empty list returns NULL, and leaves a list if and only if nothing was ever pushed |
| FrameList.PopDrainedTwice | kernel/src/memory/framealloc.c:45-54 | after popping a drained list the next pop returns an address inside the list, and a pushed frame comes back off by one |
| FrameList.RunsLikeAStack | kernel/src/memory/framealloc.c:31-57 | every run that does not pop a drained list answers like a LIFO stack |
| FrameList.RegionOfEmptyList | kernel/src/memory/framealloc.c:59-73 | an empty list takes min(ceil(length/4096), 9) distinct frames of a region |
| FrameList.RegionStep | kernel/src/memory/framealloc.c:63-71 | for a list of any length the loop stops behind the first frame that makes it longer than 100, starts at offset 29999 or more, or ends the region |
| FrameList.FreeFrameList.Push | kernel/src/memory/framealloc.c:31-37 | the method on the word array is the modelled push, aliasing included |
| FrameList.FreeFrameList.Pop | kernel/src/memory/framealloc.c:39-57 | the method on the word array is the modelled pop, aliasing included |
| FrameList.FreeFrameList.AddFrameRegion | kernel/src/memory/framealloc.c:59-73 | pushes the first frames of the region in order, as many as the two limits allow |
| HeapBreak.NextInv | kernel/src/klibc/spinlock.asm:7-25 | every step of every processor keeps: one owner of the lock, and its private copies agree with K_HEAP_END |
| HeapBreak.RunInv | kernel/src/memory/heap.c:21-33 | the invariant holds at every moment of every interleaving |
| HeapBreak.GrowHeapSafe | kernel/src/memory/heap.c:21-33 | at most one processor is in the critical section; completed calls returned disjoint regions inside the heap, and they tile it exactly whenever nobody is inside |
| HeapBreak.RunServes | kernel/src/memory/heap.c:21-33 | in every run each processor works on the size its call was given, and each finished region has exactly the pages its call asked for |
| HeapBreak.AskedIsServed | kernel/src/memory/heap.c:21-33 | the pages asked for are those of the finished calls and of the calls under way |
| HeapBreak.GrowHeapServes | kernel/src/memory/heap.c:21-33 | calls that asked for pages got different addresses; with nobody inside the heap has grown by what the finished calls asked for, and with no call under way by what all calls ever asked for |
| HeapBreak.AloneServes | kernel/src/memory/heap.c:21-33 | with the lock free a call that runs alone completes, returns the old heap end and moves it by the pages asked for |
| HeapBreak.LockedOut | kernel/src/klibc/spinlock.asm:7-12 | while the lock is held, testing it changes nothing |
| PebbleLayout.SplitArithmetic | kernel/src/klibc/bucketalloc.h:38-39 | for requests in units of 64 the guard leaves a remainder of at least 2 bytes, its refusal wastes at most 125, and both bounds are attained |
| PebbleLayout.LargestAttained | kernel/src/klibc/bucketalloc.c:86-99 | the largest size is the size of one of the pebbles |
| HeapAnswers.SplitExactly | kernel/src/klibc/bucketalloc.h:38-39 | the exact sizes at which a pebble is split for a request in units of 64 |
| PebbleLayout.SplitNeedsMultiple | kernel/src/klibc/bucketalloc.c:206-219 | without a multiple of 64 the guard lets the subtraction underflow |
| PebbleLayout.Choose | kernel/src/klibc/bucketalloc.c:101-147 | finds a pebble if and only if one fits; first-found is the earliest that fits, best-fit the earliest of the smallest |
| PebbleLayout.SpliceTiled | kernel/src/klibc/bucketalloc.c:149-204 | replacing pebbles by others that fill the same bytes keeps the tiling |
| PebbleLayout.PlacedKeeps | kernel/src/klibc/bucketalloc.c:133-170 | placing keeps the tiling and leaves no two neighbours free; the block holds the rounded request with at most 125 bytes more |
| PebbleLayout.FreedKeeps | kernel/src/klibc/bucketalloc.c:173-204 | freeing keeps the tiling and leaves no two neighbours free |
| PebbleLayout.FreedPlaced | kernel/src/klibc/bucketalloc.c:149-204 | freeing the pebble just placed restores addresses, sizes and flags |
| HeapModel.RoundedHolds | kernel/src/klibc/bucketalloc.c:228-235 | the 64-byte rounding always holds the request; the written one if and only if the size ends in the last 63 bytes of a page or fills it |
| HeapModel.MallocKeeps | kernel/src/klibc/bucketalloc.c:225-277 | kmalloc up to its memset keeps every bucket tiled, coalesced and exactly cached, and the buckets apart |
| HeapModel.FreeKeeps | kernel/src/klibc/bucketalloc.c:318-344 | so does kfree of any pebble in its chain, in use or free, also when it gives a bucket back |
| HeapTheorems.PebblesApart | kernel/src/klibc/bucketalloc.c:149-204 | two pebbles anywhere in the heap share no byte and none touches a bucket header |
| HeapTheorems.BucketFilled | kernel/src/klibc/bucketalloc.c:19-56 | 64 plus the sum of 60 + size over the pebbles is 4096 times the pages |
| HeapTheorems.EmptyBucket | kernel/src/klibc/bucketalloc.c:340-341 | a bucket with nothing in use is one pebble of 4096 * pages - 124 bytes |
| HeapTheorems.MallocLive | kernel/src/klibc/bucketalloc.c:225-277 | a successful kmalloc adds exactly one live block, disjoint from all others, and leaves every other live block as it was |
| HeapTheorems.FreeLive | kernel/src/klibc/bucketalloc.c:318-344 | kfree retires exactly the block it is given |
| HeapTheorems.PebbleAtUnique | kernel/src/klibc/bucketalloc.c:323-323 | a payload address belongs to one pebble only |
| HeapTheorems.FreeOfFree | kernel/src/klibc/bucketalloc.c:325-344 | kfree of a free pebble still in its chain changes nothing, or gives back the wholly free bucket it fills |
| HeapTheorems.FreeUndoesMalloc | kernel/src/klibc/bucketalloc.c:225-344 | kfree of what kmalloc just returned restores the whole heap, except that a wholly free bucket other than the initial one is given back |
| HeapAnswers.InitialFirstFound | kernel/src/klibc/bucketalloc.c:12-32 | the bucket that kmalloc_init makes is first-found |
| HeapAnswers.RunFirstFound | kernel/src/klibc/bucketalloc.c:32-32 | every bucket of every heap that a run reaches from the heap of kmalloc_init is first-found |
| HeapAnswers.MallocAnswers | kernel/src/klibc/bucketalloc.c:225-277 | kmalloc returns the payload of the first free pebble in list order that holds the request; when there is none, that of a new bucket at the heap end if one is mapped and holds it, else NULL; request and page count are given by their defining inequalities |
| HeapAnswers.MallocPlaces | kernel/src/klibc/bucketalloc.c:149-170 | that pebble becomes the block, cut exactly when it splits, and the list is otherwise unchanged; a new bucket becomes the second of the list |
| HeapAnswers.WantUnique | kernel/src/klibc/bucketalloc.c:228-235 | the rounded request is the one multiple of 64 in the 64 bytes from the size on, and as written the one multiple of 4096 in the 4096 bytes up to size + 63 |
| HeapAnswers.PagesForLeast | kernel/src/klibc/bucketalloc.c:22-28 | a bucket has the least number of pages that hold the size and 65660 bytes |
| HeapAnswers.SmallIsMinimum | kernel/src/klibc/bucketalloc.c:228-229 | a request below 64 bytes is served as one of exactly 64 |
| HeapAnswers.FreePlaces | kernel/src/klibc/bucketalloc.c:318-344 | kfree gives the bucket back if and only if it is not the initial one and no other block in it is in use; every other bucket stays as it is, in its place |
| HeapTheorems.CacheNeverHides | kernel/src/klibc/bucketalloc.c:86-99 | largest_free bounds every pebble that fits, so the filter never skips a bucket that could serve |
| HeapTheorems.MallocFailsIff | kernel/src/klibc/bucketalloc.c:242-277 | NULL if and only if no pebble fits and either nothing was mapped or the bucket made for the request cannot hold it |
| HeapTheorems.SmallRequestsSucceed | kernel/src/klibc/bucketalloc.c:261-277 | every request of up to 65536 bytes succeeds when a region can be mapped; 69600 bytes do not fit the bucket made for them |
| HeapRuns.SafeMallocClears | kernel/src/klibc/bucketalloc.c:279-280 | for every safe size and every heap the returned block holds the request and the memset clears no header |
| HeapRuns.ClearSafeIff | kernel/src/klibc/bucketalloc.c:279-280 | clearing a stretch of a payload hits no pebble or bucket header anywhere and stays in the bucket if and only if the payload is that long |
| HeapRuns.FirstMallocOverruns | kernel/src/klibc/bucketalloc.c:225-283 | with the written rounding, for every size that is not safe and every size the heap was made for, the first kmalloc on a new heap returns a block shorter than the request and clears the header behind it, in the initial bucket or in the one created for the request |
| HeapRuns.MallocClearsIff | kernel/src/klibc/bucketalloc.c:225-283 | the memset of kmalloc misses every header on every heap if and only if the size is safe, which the caller can tell from size modulo 4096 |
| HeapRuns.FirstMallocAsWritten | kernel/src/klibc/bucketalloc.c:235-280 | as written, kmalloc(100) on a new heap returns the address of the next pebble's header |
| HeapRuns.StepKeeps | kernel/src/klibc/bucketalloc.c:225-344 | every legal call, memset included, keeps the layout and every header of every chain intact |
| HeapRuns.Run | kernel/src/klibc/bucketalloc.c:225-344 | so does every run of kmalloc with safe sizes and kfree of anything but a header that was merged or unmapped away |
| HeapRuns.RunKeepsLive | kernel/src/klibc/bucketalloc.c:225-344 | over every such run a block in use keeps its address and size until it is freed |
| HeapRuns.SecondFreeLegalIff | kernel/src/klibc/bucketalloc.c:318-344 | after a kfree of any pebble of any heap, a kfree of the same pointer is legal if and only if the first one neither melted the pebble into its left neighbour nor gave its bucket back |
| HeapRuns.HeaderSpares | kernel/src/klibc/bucketalloc.c:149-204 | the header of a pebble in its chain lies outside the payload of every block in use |
| HeaderChains.SplitChain | kernel/src/klibc/bucketalloc.c:156-166 | the stores of a split turn headers that represent a sequence into headers that represent it with the pebble split |
| HeaderChains.MergeChain | kernel/src/klibc/bucketalloc.c:178-181 | the stores of a merge turn headers that represent a sequence into headers that represent it with the two pebbles merged |
| HeaderChains.FreeChain | kernel/src/klibc/bucketalloc.c:330-334 | the stores of kfree on a pebble in its chain, in use or free, represent the sequence with it freed and melted on both sides |
| HeaderChains.FreeOnly | kernel/src/klibc/bucketalloc.c:330-334 | kfree of a pebble in its chain changes headers of that chain only |
| DoubleFree.DoubleFreeIff | kernel/src/klibc/bucketalloc.c:330-334 | the header stores of kfree of a block, made twice, leave the bucket's headers describing some layout if and only if the first did not melt it into its left neighbour |
| DoubleFree.DoubleFreeInput | kernel/src/klibc/bucketalloc.c:189-201 | in every bucket that starts with three blocks in use: after kfree of the first, and of the second twice, the first runs over the third and the headers describe no layout |
| DoubleFree.MallocInRow | kernel/src/klibc/bucketalloc.c:225-277 | kmalloc on the heap of kmalloc_init(0x1000) puts up to three blocks side by side |
| HeaderChains.ClearedRepresents | kernel/src/klibc/bucketalloc.c:279-280 | clearing memory leaves the headers representing the heap if and only if no header starts in the cleared bytes |
| HeaderChains.InsertRepresents | kernel/src/klibc/bucketalloc.h:29-36 | the stores of UPDATE_NODE represent the list with the new bucket behind the head, and every old pebble chain survives |
| HeaderChains.RemoveChain | kernel/src/klibc/bucketalloc.c:74-79 | the two stores of an unlink represent the list without that bucket |
| HeaderChains.ReplaceRepresents | kernel/src/klibc/bucketalloc.c:86-99 | rewriting headers inside one bucket leaves what all other buckets represent untouched |
| BucketAlloc.KernelHeap.constructor | kernel/src/klibc/bucketalloc.c:12-17 | the initial heap is one wholly free first-found bucket at the heap start |
| BucketAlloc.KernelHeap.UpdateLargest | kernel/src/klibc/bucketalloc.c:86-99 | the loop over the links stores the maximum over the represented pebbles and changes nothing else |
| BucketAlloc.KernelHeap.SplitPebble | kernel/src/klibc/bucketalloc.c:149-170 | the header stores represent the sequence with the pebble split, links being mutual inverses, and change headers of the new chain only |
| BucketAlloc.KernelHeap.FindFirst | kernel/src/klibc/bucketalloc.c:133-143 | NULL if and only if no free pebble fits, else the earliest that fits |
| BucketAlloc.KernelHeap.FindBest | kernel/src/klibc/bucketalloc.c:114-123 | NULL if and only if no free pebble fits, else the earliest of the smallest that fit |
| BucketAlloc.KernelHeap.PlacePebble | kernel/src/klibc/bucketalloc.c:101-147 | NULL and no change if and only if nothing fits, else the links represent the sequence with the chosen pebble placed |
| BucketAlloc.KernelHeap.MergeWithNext | kernel/src/klibc/bucketalloc.c:178-181 | the stores represent the sequence with the two pebbles merged, and leave the swallowed header in memory |
| BucketAlloc.KernelHeap.SwallowNext | kernel/src/klibc/bucketalloc.c:190-201 | `first` stays at the bucket plus 64, the two pebbles become one and the cache is exact afterwards |
| BucketAlloc.KernelHeap.MeltPrev | kernel/src/klibc/bucketalloc.c:189-204 | melts into a free left neighbour if there is one and returns the pebble that remains; the cache stays exact |
| BucketAlloc.KernelHeap.AbsorbNext | kernel/src/klibc/bucketalloc.c:173-187 | absorbs a free right neighbour if there is one; the cache stays exact |
| BucketAlloc.KernelHeap.CreateBucket | kernel/src/klibc/bucketalloc.c:19-56 | writes the two headers of a wholly free first-found bucket at the old end of the region, or nothing when mmap fails |
| BucketAlloc.KernelHeap.InsertBucket | kernel/src/klibc/bucketalloc.c:58-68 | relinks the new bucket, the head and the old second bucket and no other header |
| BucketAlloc.KernelHeap.RemoveBucket | kernel/src/klibc/bucketalloc.c:71-84 | the remaining headers represent the list without the bucket; the initial bucket is never unlinked |
| BucketAlloc.KernelHeap.Coalesce | kernel/src/klibc/bucketalloc.c:330-334 | the headers represent the sequence with the pebble freed and melted on both sides, and the cache is exact; the stores are the ones `DoubleFreeIff` speaks of |
| BucketAlloc.KernelHeap.ReturnBucket | kernel/src/klibc/bucketalloc.c:338-343 | the link test recognises exactly the wholly free bucket, which is removed unless it is the initial one |
| BucketAlloc.KernelHeap.TryBucket | kernel/src/klibc/bucketalloc.c:246-256 | one bucket serves the request if and only if one of its pebbles fits, although the cached size is asked first |
| BucketAlloc.KernelHeap.SearchBuckets | kernel/src/klibc/bucketalloc.c:242-259 | the search filtered by largest_free serves the request from the same bucket and pebble as an unfiltered scan in list order |
| BucketAlloc.KernelHeap.KMalloc | kernel/src/klibc/bucketalloc.c:225-283 | pointer and heap are those of the modelled kmalloc and the headers in memory exactly the expected ones; with first-found buckets, as all are, the pointer is the payload of the first hole in list order; the header stores miss the payload of every block in use; after the memset the links represent that heap if and only if no header starts in the cleared bytes, which holds for every safe size |
| BucketAlloc.KernelHeap.KFree | kernel/src/klibc/bucketalloc.c:318-344 | for every pointer whose header was not merged or unmapped away the linked headers afterwards represent the modelled kfree, and no store touches the payload of a block in use; NULL and addresses without a header change nothing |
| BucketAlloc.KernelHeap.Run | kernel/src/klibc/bucketalloc.c:225-344 | every legal run on the linked headers keeps them in order and ends in the state of the modelled run |
| BucketAlloc.ReachDoubleFree | kernel/src/klibc/bucketalloc.c:318-344 | three calls of kmalloc(n), kfree(a) and kfree(b) lead to headers on which the stores of a second kfree(b) let the block of a run over that of c |
| Digits.TextParses | kernel/src/klibc/string/ultoa.c:9-13 | the numeral of a value parses back to it and has no leading zero |
| Digits.TextUnique | kernel/src/klibc/string/itoa.c:89-125 | every digit string without leading zero is the numeral of the value it stands for |
| NumberFormat.FitsTable | kernel/src/klibc/string/itoa.c:11-29 | the digit table bounds the numeral of every 64-bit value in every base from 2 to 16 |
| NumberFormat.TableTight | kernel/src/klibc/string/itoa.c:11-29 | and the largest 64-bit value needs every one of those digits |
| NumberFormat.LowerCase | kernel/src/klibc/string/itoa.c:67-67 | the digits behind nine are the lower-case letters |
| NumberFormat.CountDown | kernel/src/klibc/string/itoa.c:105-110 | the counting loop leaves by its break, having counted the digits |
| NumberFormat.FillDown | kernel/src/klibc/string/itoa.c:116-122 | the filling loop ends although its test never fails, and writes exactly the numeral into exactly its bytes |
| NumberFormat.Utoa | kernel/src/klibc/string/itoa.c:89-125 | NULL if and only if the base is outside 2 to 16; otherwise the buffer holds the numeral and no byte beyond the table's bound was written |
| NumberFormat.Itoa | kernel/src/klibc/string/itoa.c:32-86 | the same with a sign, for every value above the minimum and every buffer; a negative numeral that fills its table entry is followed by what the buffer held behind it |
| NumberFormat.SignedTextMeans | kernel/src/klibc/string/itoa.c:46-83 | a sign exactly for a negative value, then a numeral that stands for the absolute value |
| NumberFormat.ItoaOverruns | kernel/src/klibc/string/itoa.c:36-50 | for every base that happens if and only if the absolute value is at least the base to the power of its table entry less one |
| NumberFormat.OverrunBases | kernel/src/klibc/string/itoa.c:11-37 | some value does so in every base but 2, 3, 8, 9 and 10; in base 16 every value of -2^60 or less |
| NumberFormat.NegationWraps | kernel/src/klibc/string/itoa.c:46-50 | the negation is positive for every negative value but the smallest, which it leaves as it is |
| NumberFormat.TakeDigit32 | kernel/src/klibc/string/uitoa.c:10-12 | one round on 32-bit words: no intermediate value overflows, and it takes the last digit off the numeral |
| NumberFormat.EmitDigits | kernel/src/klibc/string/ultoa.c:9-13 | emits the digits of the numeral least significant first |
| NumberFormat.EmitDigits32 | kernel/src/klibc/string/uitoa.c:9-13 | the same on 32-bit words |
| NumberFormat.ReverseInPlace | kernel/src/klibc/string/ultoa.c:15-19 | the two-pointer loop reverses the first n bytes and touches no other |
| NumberFormat.Ultoa | kernel/src/klibc/string/ultoa.c:4-21 | the buffer holds the numeral for bases 2 to 36 and the empty string otherwise |
| NumberFormat.Iltoa | kernel/src/klibc/string/iltoa.c:5-24 | the numeral for bases 2 to 36 and the empty string otherwise; the sign branch is never taken, so no text has a sign |
| NumberFormat.Uitoa | kernel/src/klibc/string/uitoa.c:4-21 | the numeral of every 32-bit value for bases 2 to 36 and the empty string otherwise; 33 bytes suffice |
| NumberFormat.AgreeOnAll | kernel/src/klibc/string/iltoa.c:5-24 | the five functions produce the same string wherever they are defined, ultoa and iltoa on bases 2 to 36, uitoa there on 32-bit values, utoa on bases 2 to 16 and itoa there on values below 2^63; it is the numeral that parses back to the value |
| Printf.ScanSpecMeans | kernel/src/klibc/string/printf.c:61-92 | a specifier run is the longest stretch of i, u, h, l, p that stops at the first p; h or p means hexadecimal, u or p unsigned, and the last of i, l and p sets the width |
| Printf.OneArgPerDirective | kernel/src/klibc/string/printf.c:37-113 | exactly one argument per directive is consumed |
| Printf.ScanSpecifiers | kernel/src/klibc/string/printf.c:56-92 | the loop computes the declared run |
| Printf.FormatNumber | kernel/src/klibc/string/printf.c:94-127 | the text of a number in the width, sign and base of its specifier, with 0x for base 16 |
| Printf.Round | kernel/src/klibc/string/printf.c:22-141 | one round appends the text of the next token and leaves the rest of the rendering to do |
| Printf.VPrintf | kernel/src/klibc/string/printf.c:21-142 | terminates, writes exactly the concatenated renderings and no byte behind them |
| Printf.FormatToBuffer | kernel/src/klibc/string/printf.c:145-183 | a rendering shorter than 1024 bytes fits the buffer with its terminator |
| PrintfLaws.CharacterLaw | kernel/src/klibc/string/printf.c:135-140 | a character other than a percent sign prints itself |
| PrintfLaws.PercentLaw | kernel/src/klibc/string/printf.c:28-35 | a percent sign before another one or a blank prints one percent sign and consumes both |
| PrintfLaws.StringLaw | kernel/src/klibc/string/printf.c:37-48 | %s prints the next argument |
| PrintfLaws.DroppedLaw | kernel/src/klibc/string/printf.c:23-134 | a percent sign before anything else, or at the end, prints nothing |
| PrintfLaws.NumberLaw | kernel/src/klibc/string/printf.c:50-130 | a run of specifiers prints 0x exactly when it has h or p, a minus sign exactly when it has neither u nor p and the two's complement reading is negative, and then a numeral in base 16 or 10 that stands for the argument modulo 2^64 or 2^32, or for the magnitude of that reading |
| PrintfLaws.WidthMeans | kernel/src/klibc/string/printf.c:61-92 | the last of i, l and p decides the width, and without one it is 32 bits |
| PrintfLaws.SplitLaw | kernel/src/klibc/string/printf.c:21-142 | a format split between two directives prints what its parts print, the second part with the arguments that the first has left |
| PrintfLaws.PrintNumber | kernel/src/klibc/string/printf.c:145-183 | the buffer after printing one number directive |
| Strstr.Strstr | kernel/src/main.c:107-117 | the first occurrence, or NULL if and only if there is none |

## Left out

- krealloc and shrink_pebble: only the reason why they cannot use the split guard is proved (`SplitNeedsMultiple`).
- Concurrent kmalloc and kfree: kfree reads bucket fields after it released the lock (bucketalloc.c:336-343), so the heap is modelled sequentially; the bucket spinlocks do not appear.
- HeapRuns.Run: a kfree of a header that was merged or unmapped away is excluded, and so is an unsafe size; what they do is stated for the next call only (`SecondFreeLegalIff`, `DoubleFreeIff`, `UnmapBucket`, `FirstMallocOverruns`). A header counts as present until kmalloc clears its first byte, also when later headers have overwritten parts of it, and payloads never contain the magic number.
- BucketAlloc.KernelHeap.KMalloc: sizes are unbounded, so the wrap-around of a request within a page of 2^64 is not modelled; a header that the memset clears partly counts as gone.
- BucketAlloc.KernelHeap.KFree: a pointer to a header that was merged or unmapped away is excluded: the headers then describe no layout (`DoubleFreeIff`) or are not mapped (`UnmapBucket`).
- BucketAlloc.KernelHeap.CreateBucket: mmap's answer is a parameter; what it does to the page tables is stated by `HeapRegion.MapBucket`, and the heap takes the region as usable, as the code does.
- BucketAlloc.KernelHeap.SwallowNext: the statements that absorb_next and melt_prev share are written once, in terms of the pebble that survives.
- VirtualMemory.Vmm.Run: as for munmap, the pages mapped before the run are spared when unmap_page returns frames.
- BucketAlloc.KernelHeap.Run: legal runs only, as for `HeapRuns.Run`.
- VirtualMemory.Vmm.Munmap: when unmap_page returns frames, a visited page that somebody else mapped is excluded, since pushing a frame that has another role breaks the partition (`PushKeepsIff`).
- Paging.PageTables.MapToPage: large pages are not modelled (every present entry above the last level is read as a table, as the code does), nor is a null translated address of the root.
- Paging.PageTables.CreateKernelPageTables: with no free frame at all the code writes through a null table address; at least one frame is required.
- FrameList.FreeFrameList.Push: the code has no bound on the slots; room in the array is required.
- NumberFormat.Itoa: the smallest 64-bit integer is excluded, because negating it overflows; non-negative values share the loops of utoa.
- Printf.FormatNumber: a signed 64-bit argument must not be the smallest integer, as for itoa.
- Printf.VPrintf: the argument list is a sequence of slots, a signed 64-bit argument must not be the smallest integer, and each round builds its text before it is copied.
- HeapBreak.GrowHeapSafe: addresses are unbounded and liveness of the spin loop is not claimed; its test reads through a register that does not hold the lock's address (spinlock.asm:15).
- TLB maintenance, loading of CR3, caching attributes, the physical-memory offset and inline assembly.
- UART, framebuffer and TTY output, boot requests, module lookup, IDT and ISR code.
- get_frame_status, init_frame_bitmap, get_pt_entry_frame, free_page, atoi, checkStringEndsWith: stubs or unused.
- The routine copies of memcpy, memset, memcmp, memmove and libc/string: only their contracts are used.
