# ScorchOS memory management and device cores, verified

A Dafny model of the parts of the ScorchOS kernel whose correctness is not visible from reading one
function: the memory-management stack as one layered system, and seven self-contained cores.

**The heap (`src/liballoc.c`).** Chunks of pages are tiled by 32-byte boundary tags. A doubly linked
chain (`split_left`, `split_right`) runs through each chunk, and doubly linked free lists, one a size
class, run across chunks. `free` merges a block with free neighbours on both sides and gives a
complete chunk back to the pager when five of its class already stand by.
`LiballocModel.State` is memory on values (header records by address, bytes by address, the two
arrays), and `Liballoc.Heap` is the same thing updated in place, each method proved equal to its
function on values. `LiballocInvariant.Inv` is the whole invariant: tiling, lists, sizes, coalescing and
counters. `LiballocFit` tells what `malloc` and `free` decide from the blocks and chunks alone, without the
lists, indices and counters. Writing a header wipes the 32 bytes under it, so "a payload byte kept its value" is a claim
about every header store.

**Frames, page tables and the pager hook (`src/pmm.c`, `src/vmm.c`, `src/heap.c`).** `Pmm` is the bitmap of
frames, against a set of used frames. `VmmModel` and `Vmm` are the two-level page tables over physical
memory, where mapping a page can need a page table, which is itself mapped, which can need another.
`PagerModel` and `KernelHeap` hand the heap ranges of virtual pages from 0xC8000000 up and keep a record
of every range granted.

**The layers together.** `KernelMemory` runs `malloc`, `free` and `realloc` over `liballoc_alloc` over the page
tables and the frame bitmap, the heap's top and the pager's being one. `KernelModel` is the same system on
values: every state of every run keeps the invariants of all layers, and with enough frames at the start
every byte of every live payload lies in a page that is present and writable, on a frame that no other
page of the heap has and that is no page table; the processor's walk of the two levels (`VmmModel.Walk`)
takes different payload bytes to different bytes of memory. `Machine` holds the constants the layers share.

**Cores.** The FAT12 entry decoder and cluster walk (`Fat12`), the USB CRC5 register (`Crc5`), the
RTL8139 receive ring (`Rtl8139`), `strtok` (`Strtok`), the PCI bridge scan (`Pci`), the scrolling text screen
(`Screen`) and the key buffer shared with an interrupt handler (`Keyboard`). Each is proved against a
definition that does not look like the code: the flat table of 12-bit entries, division of polynomials over
GF(2), the card's writes, maximal delimiter-free runs, reachability through bridges, a grid of unbounded
height, the sequence of keys pushed.

Sector reads, configuration words, ring contents and key codes are parameters, and so is the pager's answer
in the heap taken by itself. Pointers are integers with 0 (in `Strtok` and the bitmap searches -1) for none;
32-bit, 16-bit and 8-bit arithmetic that can wrap is written out (`U32`, `I32`, `% 0x10000`, `% 256`).

Check everything with `dafny verify dfyconfig.toml`.

## Where the code misses its stated intent

The code is kept as it is, with the exact condition under which it does what it says:

- `src/pmm.c:149-150` fills the map with the byte 0xf although all blocks are said to be in use
  (`PmmAsCoded.InitCountsIff`, `PmmAsCoded.InitMiscounts`).
- `src/pmm.c:88` and `src/pmm.c:113` scan `max` words where the map has `max` bits. For single blocks this is harmless while the
  counter is right (`Pmm.ScanInside`, `Pmm.FrameAllocator.AllocBlock`).
- `src/pmm.c:120-130` tests bits from `32 * i + 2^j` instead of `32 * i + j` and counts clear bits that are not
  consecutive. It is right on every map exactly when at most one block is asked for, or at least all but two
  (`PmmAsCoded.CodedRunSoundIff`); on a given map the counter survives exactly when the answer was a free run
  (`PmmAsCoded.AllocBlocks`). The layers above are built on the search as its comments describe it.
- `src/pmm.c:164` and `src/pmm.c:177` set bit 0 without counting it (`Pmm.InitRegionCounts`, `Pmm.DeinitRegionCounts`).
- `src/vmm.c:239` clears a new table at its address with the flag bits added (`VmmModel.CodedClearExact`). The layers
  above are built on a table that is cleared.
- `src/vmm.c:257-258` ignores the failure of `vmmngr_createPageTable` and stores through the absent entry, into frame 0
  (`VmmModel.MapFails`); `vmmngr_alloc_pages_at_virtual_address` returns true all the same. A page of the range is
  mapped exactly when its region had a table or a frame was free when the loop came to it (`VmmModel.RangeMappedIff`,
  `VmmModel.RegionMappedIff`).
- `src/vmm.c:272` masks bit 31 of a table's address off: the table's frame is given back exactly when it lies below
  2 GB (`VmmModel.UnmapExact`).
- `src/heap.c:44-59` returns an unset pointer where `src/liballoc.h:70` promises NULL, exactly when the page at the top
  has a translation already or no run of frames can be had (`KernelHeap.Pager.LiballocAlloc`).
- `src/liballoc.c:236-276` asks for too few pages when adding the header wraps. `malloc` then finds no listed tag, and
  with pages granted it leaves the heap whole exactly when the sum does not wrap (`LiballocMalloc.MallocIntactIff`).
- `src/liballoc.c:526-528` copies to address 0 and frees the old block when `malloc` fails
  (`LiballocRuns.ReallocKeepsIffServed`).
- `src/pci.c:172-184` follows bridges without marking buses: the scan ends exactly when no bus it reaches reaches itself
  (`PciModel.FinishesIff`).
- `src/pci.c:379-383` stops at the first function that is present, so with several host controllers nothing is checked
  (`Pci.Scanner.CheckAllBuses`).
- `src/kb.c:188` wraps the end index at the 256th key in line (`KeyboardModel.AccountedIff`).

## Model

| member | source | states |
|---|---|---|
| Liballoc.GetExponent | src/liballoc.c:43-67 | the loop over `shift` returns the floor of the binary logarithm, or -1 below 256 |
| LiballocModel.GetExp | src/liballoc.c:43-67 | the class e of a size has 2^e <= size < 2^(e+1) and lies in 8..31; below 256 it is -1 |
| LiballocFit.RequestClass | src/liballoc.c:301-303 | the list malloc looks in is that of the one class k of the request: 8 at least, size below 2^(k+1), and from 2^k on unless k is 8 |
| LiballocFit.TagClass | src/liballoc.c:140-151 | a free tag is filed under that same class of its real size less 32 |
| Liballoc.Heap.constructor | src/liballoc.c:288-299 | a heap over any memory with empty arrays satisfies the whole invariant |
| Liballoc.Heap.InsertTag | src/liballoc.c:140-161 | index -1 is replaced by the tag's size class; the tag becomes the head of that list, the old head's `prev` follows, nothing else changes |
| Liballoc.Heap.Push | src/liballoc.c:153-161 | linking a tag in at the head of a list, with and without an old head |
| Liballoc.Heap.RemoveTag | src/liballoc.c:163-173 | the tag leaves its list: the head or the neighbours' links skip it, and its own links and index are reset |
| LiballocLists.RemoveListed | src/liballoc.c:163-173 | after removal every free list is still acyclic and consistently doubly linked, and the tag is in none |
| LiballocLists.InsertListed | src/liballoc.c:140-161 | after insertion the same holds with the tag at the head of its list |
| Liballoc.Heap.Melt | src/liballoc.c:176-187 | the tag's real size goes to its left neighbour and the chain skips it |
| LiballocTiling.MeltTiled | src/liballoc.c:176-187 | melting two neighbours keeps every chunk exactly tiled |
| Liballoc.Heap.AbsorbRight | src/liballoc.c:189-201 | the right neighbour is unlisted, its real size is taken over and the chain skips it |
| LiballocTiling.SwallowIsMelt | src/liballoc.c:189-201 | absorbing the right neighbour is the same change to memory as melting that neighbour left |
| Liballoc.Heap.SplitTag | src/liballoc.c:204-228 | a new tag is carved out of the tail of a tag and filed under its own class |
| Liballoc.Heap.CarveTag | src/liballoc.c:204-223 | the headers of the old, the new and the next tag after the cut |
| LiballocTiling.CarveTiled | src/liballoc.c:204-228 | cutting a tag whose rest holds more than a header keeps every chunk exactly tiled |
| Liballoc.Heap.AllocateNewTag | src/liballoc.c:236-276 | a granted chunk of at least 16 pages becomes one live tag at the heap's top; a refusal changes nothing |
| LiballocTiling.NewChunkTiled | src/liballoc.c:236-276 | a chunk appended at the top keeps the tiling and stays apart from all other chunks |
| Liballoc.Heap.Initialize | src/liballoc.c:288-299 | the first-call clearing of the arrays changes nothing, because no tag exists before it |
| Liballoc.Heap.Search | src/liballoc.c:305-320 | following `next` finds the first acceptable tag of the list, or NULL |
| LiballocMalloc.FirstFitSpec | src/liballoc.c:305-320 | the tag found is acceptable and every tag before it in the list is not; NULL iff none is acceptable |
| LiballocFit.FoundIsFirst | src/liballoc.c:305-320 | of the list of the request's class malloc takes the first tag with at least size plus 64 bytes |
| Liballoc.Heap.TakeTag | src/liballoc.c:336-339 | the tag is unlisted and its class's counter goes down exactly when it is a complete chunk |
| LiballocOps.TakeCounted | src/liballoc.c:336-339 | after that the counters again say how many complete chunks stand in each list, at most five |
| Liballoc.Heap.Obtain | src/liballoc.c:286-340 | for every 32-bit size malloc gets the tag found, else a granted new chunk, else NULL with nothing changed |
| Liballoc.Heap.SettleTag | src/liballoc.c:344-372 | the size is noted and the rest is cut off exactly when the signed remainder reaches 256 |
| LiballocMalloc.SplitsIffRoom | src/liballoc.c:352-372 | the signed 32-bit test cuts exactly when real size minus size minus two headers is at least 256 |
| LiballocMalloc.SettleHolds | src/liballoc.c:344-372 | settling a block in hand gives the whole invariant: waste below 288 bytes, no two free neighbours |
| Liballoc.Heap.Malloc | src/liballoc.c:280-389 | in place and for every 32-bit size, malloc leaves the state and returns the pointer of the function on values; the invariant is kept when size plus header does not wrap and broken when it does and pages are granted |
| LiballocMalloc.MallocHolds | src/liballoc.c:280-389 | malloc keeps the invariant, returns NULL (changing nothing) iff no listed tag is acceptable and the pager refuses, and otherwise turns one free block or one new chunk into the live block and at most one free rest |
| LiballocMalloc.MallocChunks | src/liballoc.c:323-333 | malloc takes at most one chunk, of the requested pages, at the top, and only when no listed tag is acceptable |
| LiballocMalloc.SourceIsFree | src/liballoc.c:305-340 | the block malloc settles is big enough, and free or new, and overlaps no live block |
| LiballocFit.NullIff | src/liballoc.c:301-333 | for every 32-bit size malloc without pages returns NULL iff no free block of the request's class has room for size plus 64 bytes |
| LiballocFit.ServedFromFit | src/liballoc.c:301-389 | when such a block exists malloc takes one, whatever the pager would answer: it becomes live, its tail is cut off iff size plus 320 bytes fit, and the chunks stay |
| LiballocFit.ChunkIff | src/liballoc.c:236-333 | a chunk is taken iff no block fits: one, at the top, of the least whole pages, 16 at least, that hold size plus 32, and the block comes from its front |
| LiballocModel.PagesFor | src/liballoc.c:236-258 | the least number of pages, 16 at least, that holds size plus header when that does not wrap |
| LiballocBytes.MallocWipes | src/liballoc.c:260-372 | the 32 bytes before a served payload hold its header and no caller's bytes |
| LiballocMalloc.WrapFindsNothing | src/liballoc.c:305-320 | for a size whose sum with the header wraps no listed tag is ever found, so the pager is asked |
| LiballocMalloc.MallocIntactIff | src/liballoc.c:236-389 | with pages granted and room for them, malloc of any 32-bit size keeps the whole invariant iff size plus header does not wrap |
| LiballocRuns.MallocServes | src/liballoc.c:280-389 | a served malloc returns a live block of the size asked for that was not live, and spares every other live block and payload byte |
| Liballoc.Heap.MeltLeftLoop | src/liballoc.c:421-429 | the left loop turns at most once, and ends with a busy left neighbour |
| Liballoc.Heap.MeltRightLoop | src/liballoc.c:431-438 | the right loop turns at most once |
| LiballocOps.MergeLeftHolds | src/liballoc.c:421-429 | the left merge keeps the invariant, sums the two real sizes and leaves all other blocks alone |
| LiballocOps.MergeRightHolds | src/liballoc.c:431-438 | the right merge does the same on the other side, and then no neighbour is free |
| Liballoc.Heap.PageCount | src/liballoc.c:452-455 | the least page count that covers the tag, 16 at least; for a tag of whole pages, 16 at least, exactly its own pages |
| Liballoc.Heap.FileTag | src/liballoc.c:441-477 | a merged tag goes back to its class's list and counter, or leaves with its page count |
| LiballocOps.FileHolds | src/liballoc.c:441-477 | filing keeps the invariant; a chunk that leaves had real size pages * 4096 |
| Liballoc.Heap.Free | src/liballoc.c:395-485 | in place, free leaves the state and makes the pager call of the function on values, and keeps the invariant; a non-NULL pointer is a live block or has no magic number under it, outside all live payloads |
| LiballocMalloc.FreeHolds | src/liballoc.c:395-485 | free keeps the invariant; the block and its free neighbours become one free block, or, iff that is a complete chunk whose class already has five, the chunk leaves with its original base and page count |
| LiballocFit.ReleasesIff | src/liballoc.c:441-469 | a chunk is given back iff block and free neighbours make up the whole chunk and exactly five complete free chunks of its class stand by |
| LiballocFit.CounterIs | src/liballoc.c:441-469 | each counter is the number of complete free chunks of its class, counted over the chunks, at most five |
| LiballocFit.FreeDoes | src/liballoc.c:395-420 | free retires a live block and leaves the heap alone for NULL and for pointers over no magic number |
| LiballocRuns.FreeRetires | src/liballoc.c:395-485 | free retires the block and spares every other live block and payload byte |
| LiballocBytes.MallocSparesPayloads | src/liballoc.c:204-228 | no header store of malloc falls on a byte of a live payload |
| LiballocBytes.FreeSparesPayloads | src/liballoc.c:395-485 | no header store of free falls on a byte of another live payload |
| LiballocBytes.PayloadIsClear | src/liballoc.c:280-389 | a live block's payload lies outside every header in memory |
| LiballocTheorems.ChunkExactlyTiled | src/liballoc.c:176-276 | following `split_right` from a chunk's base meets exactly the chunk's tags, and their real sizes sum to the chunk's pages |
| LiballocTheorems.ChainFills | src/liballoc.c:176-276 | from any tag on, neighbours abut and the real sizes sum to what is left of the chunk |
| LiballocTheorems.IndexIffListed | src/liballoc.c:140-173 | a tag has index k >= 0 iff it stands in list k, once, and k is its size class |
| LiballocTheorems.CountersCountChunks | src/liballoc.c:336-339 | each counter is the number of complete free chunks of its class, at most five |
| LiballocTheorems.MallocFreeUndo | src/liballoc.c:301-477 | a malloc served from a list and the free of its result restore all blocks, the counters and the chunks, cut or not |
| LiballocRuns.PayloadsApart | src/liballoc.c:280-389 | the payloads of two live blocks do not overlap |
| Liballoc.Heap.Memcpy | src/liballoc.c:79-102 | the word loop and the byte loop compute the word-then-byte copy |
| LiballocRuns.WordCopyExact | src/liballoc.c:79-102 | word-then-byte copying equals byte copying on every memory and length iff the target is not one to three bytes above the source |
| LiballocRuns.ByteCopyMoves | src/liballoc.c:79-102 | between disjoint ranges the copy moves the n bytes and changes nothing else |
| Liballoc.Heap.ReallocPtr | src/liballoc.c:506-531 | in place, realloc leaves the state and returns the pointer of the function on values, and keeps the invariant |
| LiballocRuns.ReallocMoves | src/liballoc.c:506-531 | a served realloc returns a live block of the new size with the old bytes, retires the old one and keeps all other live payloads |
| LiballocRuns.ReallocKeepsByte | src/liballoc.c:520-531 | byte i of the result is byte i of the old block for every i below both sizes |
| LiballocRuns.ReallocLoses | src/liballoc.c:526-530 | a refused realloc returns NULL, copies the block to address 0 and frees it |
| LiballocRuns.ReallocLosesByte | src/liballoc.c:520-531 | refused, byte i of the old block lands at address i for every i below both sizes, and the block is gone |
| LiballocRuns.ReallocEnds | src/liballoc.c:506-518 | size 0 retires the block and returns NULL, NULL asks for a new block, and NULL with size 0 does nothing |
| LiballocRuns.ReallocKeepsIffServed | src/liballoc.c:506-531 | realloc gives the caller a live block with the old bytes iff malloc can serve the new size |
| LiballocRuns.StepHolds | src/liballoc.c:280-531 | every malloc, every free and realloc of a pointer the caller owns, and every write inside a live payload keeps the invariant |
| LiballocRuns.RunHolds | src/liballoc.c:280-531 | so does every legal run |
| LiballocRuns.EveryReachableHeap | src/liballoc.c:280-531 | every state a legal run reaches from an empty heap over any memory satisfies the whole invariant |
| LiballocRuns.RunSparesPayload | src/liballoc.c:280-531 | over any legal run that neither frees a block nor writes byte x of it, the block stays live and the byte keeps its value |
| Pmm.FrameAllocator.MmapSet | src/pmm.c:65-68 | sets that bit of the map and no other |
| Pmm.FrameAllocator.MmapUnset | src/pmm.c:71-74 | clears that bit of the map and no other |
| Pmm.FrameAllocator.MmapTest | src/pmm.c:77-80 | reads that bit |
| Pmm.FullWord | src/pmm.c:89-93 | a word differs from 0xffffffff iff one of its bits is clear, so skipping full words misses nothing |
| Pmm.FrameAllocator.FirstFree | src/pmm.c:83-98 | the word-skipping scan, with its bound as coded, returns the least clear bit or -1 when there is none in 32 * max bits |
| Pmm.ScanInside | src/pmm.c:83-98 | its answer lies in the map exactly when some frame is free |
| Pmm.FrameAllocator.AllocBlock | src/pmm.c:180-196 | returns NULL iff no frame is free; otherwise the least free frame, and exactly that, becomes used, and the counter stays the number of set bits |
| Pmm.GrantMeans | src/pmm.c:180-225 | in terms of bits: exactly the run granted was clear and becomes set, and no earlier run of the map was clear |
| Pmm.FrameAllocator.FreeBlock | src/pmm.c:198-206 | exactly that frame becomes free; the counter stays right iff it was used and is not block 0 |
| Pmm.AllocFreeUndo | src/pmm.c:180-236 | what pmmngr_alloc_block or pmmngr_alloc_blocks grants, the matching free undoes: the map is restored word for word |
| Pmm.FrameAllocator.FirstFreeRun | src/pmm.c:101-136 | the run search as its comments describe it: the least start of `size` consecutive free frames, or -1 iff there is none |
| Pmm.FrameAllocator.CountRun | src/pmm.c:123-131 | counting bits one by one reaches `size` iff the whole run is free |
| Pmm.FrameAllocator.AllocBlocks | src/pmm.c:208-225 | the least run of free frames becomes used; NULL iff no more frames are free than asked for or no run is long enough |
| Pmm.FrameAllocator.FreeBlocks | src/pmm.c:227-236 | exactly the run becomes free; the counter stays right iff all of it was used and block 0 is not in it |
| Pmm.FrameAllocator.InitRegion | src/pmm.c:154-165 | the region's bits are cleared and bit 0 set; over used frames without block 0 the counter stays right |
| Pmm.FrameAllocator.DeinitRegion | src/pmm.c:167-178 | the region's bits are set; over free frames the counter stays right |
| Pmm.Blocks | src/pmm.c:156-158 | the blocks of a region are the whole ones in its size, none for a negative size |
| Pmm.InitRegionCounts | src/pmm.c:154-165 | the counter keeps its distance to the number of set bits iff block 0 was used and is not in the region |
| Pmm.DeinitRegionCounts | src/pmm.c:167-178 | the same for deinitialising: iff block 0 was used or is in the region |
| PmmAsCoded.Memset | src/pmm.c:150 | the fill stores the byte's bits over the first max / 8 bytes of the map and leaves every other bit of every word |
| PmmAsCoded.InitCountsIff | src/pmm.c:142-152 | after initialisation the counter is right iff the fill byte is all ones (or covers nothing) and the frames past the last whole byte were used |
| PmmAsCoded.InitMiscounts | src/pmm.c:149-150 | with 0xf it is wrong for every machine of eight blocks or more |
| PmmAsCoded.CodedRunSoundIff | src/pmm.c:101-136 | over all maps with block 0 used and more free blocks than asked for, the run search as coded answers with free runs of the map iff size <= 1 or max <= size + 2 |
| PmmAsCoded.CountFree | src/pmm.c:123-131 | the counting loop as coded, early return included, says whether enough of size + 1 bits are clear |
| PmmAsCoded.FirstFreeRun | src/pmm.c:101-136 | the loops as coded, full words skipped, give the answer of the search over single bits |
| PmmAsCoded.GuardIsAsked | src/pmm.c:210-211 | while the counter is right the guard lets through exactly the calls the search is judged on |
| PmmAsCoded.AllocBlocks | src/pmm.c:208-225 | over the search as coded the run answered is marked, and the counter stays right iff that run was free and in the map |
| Vmm.FillIdentity | src/vmm.c:163-172 | the first fill loop makes slot k name frame k |
| Vmm.FillKernel | src/vmm.c:175-184 | the second fill loop, which runs past the table's end and wraps, makes slot k name the frame given by `KernelSlot` |
| Vmm.KernelWindow | src/vmm.c:175-184 | the kernel window translates to the address minus 3 GB iff it is past its first megabyte |
| Vmm.AddressSpace.GetPhysicalAddress | src/vmm.c:381-386 | returns the translation of the page, 0 when its table is absent |
| Vmm.AddressSpace.CreatePageTable | src/vmm.c:231-246 | in place, with the recursion into mapping, leaves the state of the function on values, whose identity mapping is `VmmModel.MapExact`; false iff no frame was free |
| Vmm.AddressSpace.MapPhysicalAddress | src/vmm.c:254-260 | in place, terminates (the absent directory entries grow fewer) and keeps page-table ownership |
| VmmModel.MapInv | src/vmm.c:231-260 | mapping keeps present directory entries naming pairwise distinct used frames, and gives the page a table iff one was there or a frame was free |
| VmmModel.MapLookup | src/vmm.c:231-260 | afterwards the page translates to frame and flags, and every other page as before, identity pages of tables made on the way aside |
| VmmModel.MapExact | src/vmm.c:231-260 | exactly what every page reads afterwards: the page mapped its entry, each page table made on the way itself where its page can have a table, every other page what it read before |
| VmmModel.MapSelfMaps | src/vmm.c:236-242 | each table made stands in the directory under the flags asked for and is itself identity mapped |
| VmmModel.MapTakes | src/vmm.c:231-260 | every frame taken while mapping is a page table made |
| VmmModel.MapWalks | src/vmm.c:254-260 | with present tables the processor takes every address of the page to the frame iff the page could have a table, and faults otherwise |
| VmmModel.MapSparesData | src/vmm.c:231-260 | mapping writes to no used frame that is not a page table, frame 0 aside |
| VmmModel.MapFails | src/vmm.c:254-260 | without a table and without a free frame the entry is stored into frame 0 and nothing else changes |
| VmmModel.MapSlack | src/vmm.c:231-260 | the number of free frames beyond one for every absent directory entry is the same after any mapping |
| VmmModel.MapKeepsPlenty | src/vmm.c:231-260 | a free frame for every absent directory entry is kept, so no later mapping fails |
| VmmModel.NoTableHandedOut | src/vmm.c:236-238 | the frame allocator never hands out a live page table |
| Vmm.AddressSpace.UnmapPageTable | src/vmm.c:267-278 | in place, frees the frame the masked entry names and clears the directory entry; the state stays whole when the table lies below 2 GB |
| VmmModel.UnmapHolds | src/vmm.c:267-278 | with that table below 2 GB, frees exactly its frame, makes exactly its 4 MB absent and leaves every other translation alone |
| VmmModel.UnmapExact | src/vmm.c:267-278 | unmapping a present table gives back exactly its frame iff the table lies below 2 GB |
| VmmModel.MaskExact | src/vmm.c:272 | the mask 0x7FFFF000 names the table's frame iff it is below 2 GB |
| Vmm.AddressSpace.MapPages | src/vmm.c:293-300 | the loop maps the n pages one after another |
| Vmm.AddressSpace.AllocPages | src/vmm.c:282-303 | succeeds iff the first page is unmapped and a run of n frames can be had; the frames were free; above all frames, each page of the range is mapped exactly when its region could have a table when the loop came to it |
| Vmm.GrantableMeans | src/vmm.c:282-291 | pages can be had iff the first has no translation, more frames are free than asked for, and as many free ones lie together |
| VmmModel.RangeMapped | src/vmm.c:293-300 | page i of the loop translates to frame base + i, present and writable, for all i: no table made later overwrites an earlier page when all frames lie below the range |
| VmmModel.RangeMappedIff | src/vmm.c:254-303 | a page of the range reads its frame, present and writable, iff its 4 MB region had a page table or a frame was free in the state in which the loop entered the region |
| VmmModel.RegionMappedIff | src/vmm.c:254-303 | inside one 4 MB region all n pages are mapped iff, before the call, the region had a table or a frame was free |
| VmmModel.RangeAllMapped | src/vmm.c:282-303 | with a free frame for every absent directory entry no page is left out |
| VmmModel.RangeOutside | src/vmm.c:282-303 | every page outside the range translates as before, identity pages of new tables aside |
| Vmm.AddressSpace.IdentMap | src/vmm.c:331-345 | in place, the loop maps the pages of the range onto themselves |
| VmmModel.IdentMapped | src/vmm.c:331-345 | each page of the range reads itself iff its region ends up with a table, wherever the frames lie |
| VmmModel.IdentWalks | src/vmm.c:331-345 | the processor takes every byte of the range to itself iff its region could have a table when the loop came to it, and faults otherwise |
| VmmModel.PagesIn | src/vmm.c:336 | the page count covers the size with less than a page over |
| VmmModel.CodedClearExact | src/vmm.c:239 | clearing a new table at its address plus flags gives a cleared table and an intact neighbour iff the bytes missed and the bytes hit beyond were zero |
| KernelHeap.Pager.LiballocAlloc | src/heap.c:40-60 | a chunk is granted iff the page at the top has no translation and a run of frames can be had; the record of grants then grows by it and the top moves past it, with all that is kept of earlier grants; otherwise nothing changes and the pointer is garbage |
| PagerModel.ServedKeeps | src/heap.c:40-60 | over any history, a served call keeps: grants end to end from the heap's base to its top, frame runs disjoint and no page tables, and, with all frames below the base, every page of every grant reading its frame, or NULL where it had no table |
| PagerModel.GrantOf | src/heap.c:40-60 | every page from the heap's base to its top lies in exactly one grant |
| PagerModel.GrantsInOrder | src/heap.c:40-60 | each grant starts where the one before ends |
| PagerModel.PlentyMaps | src/heap.c:40-60 | with a free frame left for every absent directory entry every page of a grant is mapped |
| KernelMemory.Kernel.constructor | src/heap.c:10-19 | a heap and a pager over any memory satisfy the invariants of all layers and agree on the top |
| KernelMemory.Kernel.Malloc | src/liballoc.c:280-389 | malloc with the call of liballoc_alloc it makes is one step of the system; the pager is asked exactly when no listed tag fits, and the two tops stay one |
| KernelMemory.Kernel.Free | src/liballoc.c:395-485 | free is one step of the system |
| KernelMemory.Kernel.Realloc | src/liballoc.c:506-531 | so is realloc, whose malloc comes before its free |
| KernelModel.StepKeeps | src/liballoc.c:280-531 | every legal step keeps the invariants of heap, pager, page tables and frames, and moves the top by exactly the pages got |
| KernelModel.EveryReachableSystem | src/liballoc.c:280-531 | every state of every legal run from an empty heap satisfies them |
| KernelModel.EveryPageMapped | src/heap.c:40-60 | a free frame at the start for every absent directory entry and every page the run gets keeps every page of the heap mapped in every state of the run |
| KernelModel.EveryPayloadByteMapped | src/liballoc.c:280-531 | in every state of such a run every byte of every live payload lies in a page that is present and writable, over a used frame that is no page table |
| KernelModel.PayloadPagesApart | src/liballoc.c:280-531 | payload bytes on different pages lie on different frames |
| KernelModel.PayloadWalks | src/liballoc.c:280-531 | with present tables the processor takes every live payload byte to a byte of a used frame that is no page table, and different payload bytes to different bytes |
| Fat12Table.WordHoldsEntry | src/fat12.c:177-183 | the 16 bits at byte 1.5 * c, shifted for odd c and masked for even c, are the c-th 12-bit entry of the flat table |
| Fat12Table.PairOnDisk | src/fat12.c:163-183 | on a volume with two entries in every three bytes from sector 1 on, both entries of a pair are read back |
| Fat12.WindowHoldsWord | src/fat12.c:163-177 | the two-sector window holds those 16 bits for every c, straddling entries included |
| Fat12.FileSystem.ReadEntry | src/fat12.c:163-183 | for every cluster whose table offset fits in 32 bits the entry read through the window is the flat table's entry |
| Fat12Table.PackThenDecode | src/fat12.c:177-183 | decoding a table packed from 12-bit entries gives the entries back |
| Fat12Table.DecodeThenPack | src/fat12.c:177-183 | packing the decoded entries gives the table's bytes back |
| Fat12.FileSystem.Read | src/fat12.c:150-202 | one read fills the buffer with the cluster's sector and, where the entry is 0 or from 0xff8 on, sets eof, else steps to the entry; a null file changes nothing |
| Fat12.FileSystem.Display | src/kernel.c:63-71 | for a file whose clusters are listed, the loop makes exactly as many reads and shows 512 bytes of each cluster's sector in order |
| Fat12Chain.EndsWithinIff | src/fat12.c:185-198 | a chain has at most k clusters iff there is a list of as many, each the entry of the one before, ended by 0 or an entry from 0xff8 on |
| Fat12Chain.EofIff | src/fat12.c:185-198 | eof is set within k reads iff the chain has at most k clusters |
| Fat12Chain.EndsIffSoon | src/fat12.c:185-198 | a chain ends at all iff it ends within 4088 clusters |
| Crc5.Generator.MakeCRC5 | src/usb.c:17-41 | the shift loop leaves the text of the register of the whole string in the shared result buffer |
| Crc5.CrcIffRemainder | src/usb.c:17-41 | the register is the one remainder of m(x) * x^5 divided by x^5 + x^2 + 1 |
| Crc5.CrcIsRemainder | src/usb.c:25-34 | the register is that remainder, the values of DoInvert being the quotient |
| Crc5.DivisionUnique | src/usb.c:25-34 | quotient and remainder are unique |
| Crc5.CrcLinear | src/usb.c:25-34 | the CRC of an exclusive or is the exclusive or of the CRCs |
| Crc5.AppendedIffZero | src/usb.c:17-41 | of all five-bit suffixes exactly the CRC makes the CRC of the whole zero |
| Crc5.ResultOfWhole | src/usb.c:17-41 | of all five characters 0 or 1 appended to a string exactly its own result text makes the result of the whole 00000 |
| Crc5.BurstDetected | src/usb.c:17-41 | different strings that agree outside a window of five bits have different CRCs |
| Crc5.SingleBitDetected | src/usb.c:17-41 | any single wrong bit changes the CRC |
| Crc5.TwoBitsDetectedIff | src/usb.c:17-41 | two wrong bits change it iff their distance is not a multiple of 31 |
| Rtl8139.Card.RecvPacket | src/rtl8139.c:105-194 | goes over the packet the header announces and moves past it and its padding, in 16-bit arithmetic; a length over 3000 does neither |
| ReceiveRingModel.StuckIff | src/rtl8139.c:126-133 | the offset stays where it is iff the length is over 3000 |
| ReceiveRingModel.NextIsNext | src/rtl8139.c:188-189 | otherwise it comes to where the card put the next packet |
| Rtl8139.Card.Drain | src/rtl8139.c:235-276 | the handler goes over exactly the packets written, in order, once each, across the wrap, terminates, and leaves bufferPtr at the card's offset |
| Rtl8139.Card.CatchUp | src/rtl8139.c:243-258 | the first loop consumes packets up to the end of the ring and comes out that far into it |
| ReceiveRingModel.WrittenIsStored | src/rtl8139.c:235-276 | packets of less than one ring in all do not overwrite each other, the one that runs past the end included |
| Rtl8139.CardThenDriver | src/rtl8139.c:235-276 | what the handler needs holds after the card has written packets of less than one ring |
| Strtok.Strchr | src/string.c:51-58 | finds the first occurrence, the terminator for NUL, or NULL iff there is none |
| Strtok.Tokenizer.Strspn | src/string.c:60-67 | the length of the prefix made of the given characters |
| Strtok.Tokenizer.Strcspn | src/string.c:69-78 | the length of the prefix free of them |
| Strtok.Tokenizer.Strtok | src/string.c:80-94 | one call returns the start of the first token from the static pointer on, ends it with NUL and moves past it, or returns NULL and forgets the string |
| StrtokModel.CallProgress | src/string.c:80-94 | a call after others returns the next token of the original string, although the calls before have written to it |
| Strtok.Tokenizer.AllTokens | src/string.c:80-94 | calls until NULL return every token in order, and memory changes only by a NUL after each |
| StrtokModel.TokensAreRuns | src/string.c:80-94 | the tokens are exactly the maximal delimiter-free runs of the string |
| StrtokModel.TokensInOrder | src/string.c:80-94 | they come in order with a delimiter between |
| StrtokModel.CutAt | src/string.c:92 | only the character after each token changes |
| Pci.Scanner.CheckFunction | src/pci.c:172-257 | checks what is behind a bridge, then the function, and records the network card |
| Pci.LastNicIs | src/pci.c:238-247 | the card recorded is the last function 0x10EC:0x8139 checked, with its interrupt line and base address, and there is none iff none was checked |
| Pci.Scanner.CheckDevice | src/pci.c:326-356 | skips an absent device, and functions 1 to 7 of a single-function one |
| Pci.Scanner.CheckBus | src/pci.c:359-366 | when the recursion ends at all it terminates, and checks the functions of `BusScan` in order |
| PciModel.BusTimes | src/pci.c:172-366 | with distinct secondary buses and no reachable loop, checkBus checks each present function reachable through bridges exactly once, and no other |
| PciModel.EveryFunctionOnce | src/pci.c:326-366 | told from the registers: each of the 32 devices' eight functions that answers on a reachable bus is checked once, functions 1 to 7 only under the multi-function bit, and nothing else |
| PciModel.ScanOrder | src/pci.c:172-366 | a bus is gone through by device and function, and what is behind a bridge comes before the bridge |
| PciModel.Registers | src/pci.c:172-180 | the fields of the packed words: classes at 0x0A, multi-function bit at 0x0E, secondary bus at 0x18 |
| PciModel.BridgeWord | src/pci.c:177-181 | a bridge is a function that answers with class word 0x0604 |
| PciModel.FinishesIff | src/pci.c:172-184 | the recursion from a bus ends iff no bus reachable from it reaches itself through a bridge |
| PciModel.OrderedFinishes | src/pci.c:172-184 | bridges that all lead to higher buses are enough for that |
| PciModel.PathUnique | src/pci.c:172-184 | then, with distinct secondary buses, at most one path of bridges leads to a bus |
| PciModel.ReachesBelow | src/pci.c:179-184 | what is reachable from a bus is the bus and what is reachable from its bridges' secondary buses |
| Pci.Scanner.CheckHost | src/pci.c:373-376 | with one host controller every function reachable from bus 0 has been checked exactly once |
| Pci.Scanner.CheckAllBuses | src/pci.c:369-386 | the header test and both branches as coded; with several host controllers and function 0 present nothing is checked |
| Screen.TextScreen.Memcpy | src/string.c:11-27 | the byte loop is the ascending copy |
| ScreenModel.AscendMoves | src/string.c:11-27 | copying downward moves the bytes even when the ranges overlap |
| Screen.TextScreen.Memsetw | src/common.c:11-16 | exactly the `count` cells from `dest` on become the value |
| Screen.TextScreen.Scroll | src/scrn.c:17-37 | past row 24, the screen comes to show the rows one further down |
| Screen.TextScreen.Cls | src/scrn.c:84-98 | a blank screen and the cursor at its top left |
| Screen.TextScreen.Putch | src/scrn.c:100-146 | after any character the screen is the last 25 rows of the unbounded grid fed the same characters; a printing character stands as character and colour byte where the cursor was, one row up after a scroll |
| Screen.TextScreen.Puts | src/scrn.c:148-157 | the same for a string |
| Screen.OnScreen | src/scrn.c:17-37 | each of the 25 by 80 cells on the screen is the grid's, from the top or from the last 25 rows |
| ScreenModel.RowsAboveFinal | src/scrn.c:100-146 | in the grid, rows above the cursor never change |
| ScreenModel.PlainText | src/scrn.c:100-146 | printing characters fill the grid in reading order |
| ScreenModel.TextLines | src/scrn.c:100-146 | lines shorter than 80 with newlines fill successive rows from column 0 on and leave all other cells blank |
| ScreenModel.BackspaceUndoes | src/scrn.c:106-113 | a backspace after a character blanks its cell and restores the cursor iff that was not the last of its row |
| ScreenModel.TabStops | src/scrn.c:115-118 | a tab goes to the next multiple of 8, or to the next row from column 72 on, and writes nothing |
| ScreenModel.ControlsMove | src/scrn.c:120-129 | newline and carriage return move the cursor only, other control characters do nothing |
| Keyboard.KeyBuffer.KeyInterrupt | src/kb.c:188-189 | the key's code goes to the next index, an unsigned char, of the buffer and is accounted as pushed |
| Keyboard.KeyBuffer.Wait | src/kb.c:243 | one turn of the wait loop |
| Keyboard.KeyBuffer.Shift | src/kb.c:246-250 | the loop moves the keys in line down by one, the first into slot 0 |
| Keyboard.KeyBuffer.Return | src/kb.c:254 | the value returned is slot 0 as it is after sti |
| KeyboardModel.StepKeeps | src/kb.c:239-255 | every step and every interrupt but the 256th key in line keeps all keys accounted for |
| KeyboardModel.AccountedIff | src/kb.c:188-255 | over any interleaving no key is lost, doubled or out of order iff there are never 256 in line |
| KeyboardModel.ReturnedIsPrefix | src/kb.c:188-255 | short of an overflow, the codes of the keys that arrived are the characters returned followed by the buffer, under any interleaving |
| KeyboardModel.PushedIsCodes | src/kb.c:188-189 | what a run has pushed is exactly the codes of the keys that arrived with interrupts on |
| KeyboardModel.DrainedIsCodes | src/kb.c:188-255 | left alone afterwards getchar_int has returned exactly those codes, in order |
| KeyboardModel.Drains | src/kb.c:239-255 | getchar_int left alone returns all keys in line |

## Left out

- Pmm.FrameAllocator.FirstFreeRun: the search as the comments of `src/pmm.c:101-136` describe it; the one coded is `PmmAsCoded.FirstFreeRun`, and `PmmAsCoded.CodedRunSoundIff` says when it is right.
- Pmm.FrameAllocator.CountRun: counts from the bit itself, as meant; the count as coded is `PmmAsCoded.CountFree`.
- Pmm.FrameAllocator.AllocBlocks: rests on the search as meant; the one as coded is `PmmAsCoded.AllocBlocks`.
- VmmModel.MapInv: a new page table is taken as cleared; the clearing as coded is `VmmModel.CodedClearExact`.
- Vmm.AddressSpace.IdentMap: page-aligned addresses only; the offset of any other address would end up among the flag bits.
- Liballoc.Heap.AllocateNewTag: the pager's answer is a parameter of the heap taken by itself; `KernelMemory.Kernel.Malloc` takes it from the pager.
- Liballoc.Heap.Free: pointers over a magic number that belongs to no live block are excluded, double frees among them: `free` would merge and file a block that is not live.
- Liballoc.Heap.ReallocPtr: the same pointers, and sizes that wrap, for which `LiballocMalloc.MallocIntactIff` is the exact statement about the `malloc` inside.
- LiballocMalloc.MallocHolds: sizes that do not wrap, since for the others the heap does not stay whole (`LiballocMalloc.MallocIntactIff`).
- LiballocRuns.MallocServes: the same sizes.
- LiballocRuns.RunHolds: headers and payload bytes are separate maps. A header store wipes the bytes under it; a payload write never makes a header, which is sound because callers free only what they own.
- KernelMemory.Kernel.Malloc: a refusing pager counts as NULL, although the source's pointer is then unset; sizes do not wrap, and there is room for the chunk below 4 GB.
- KernelMemory.Kernel.Free: a chunk given back stays mapped, since `vmmngr_dealloc_pages_at_virtual_address` returns without effect when the first page has a translation; its unmapping of whole tables otherwise is not part of this model.
- Fat12.FileSystem.Read: cluster numbers whose table offset does not fit in 32 bits.
- Rtl8139.Card.Drain: lengths are at most 3000; on a longer one the loop does not advance (`ReceiveRingModel.StuckIff`).
- Pci.Scanner.CheckBus: configurations from whose start bus a loop can be reached, for which the recursion does not end (`PciModel.FinishesIff`).
- Pci.Scanner.CheckFunction: the printing, and the start-up of SATA and USB controllers, which write command registers the scan does not read.
- Screen.TextScreen.Scroll: the cursor row is at most 25, as `putch` leaves it.
- Screen.TextScreen.Putch: one fixed colour; the hardware cursor is not moved.
- Keyboard.KeyBuffer.KeyInterrupt: scan codes, shift state, LEDs and the echo to the screen; a key that arrives between cli and sti is delivered after it.
- Strtok.Tokenizer.Strtok: delimiter strings do not lie in the memory that is cut.
- calloc, the heap's locks (they do nothing) and its debug output.
- Page-table and directory bit helpers, TLB flushing, switching directories, and the rest of `vmmngr_initialize`: field packing and hardware.
- Opening files and directories of the FAT12 volume, the VFS layer and the floppy driver.
- Transmission and set-up of the network card, the UHCI and AHCI drivers, DMA.
- Boot, descriptor tables, interrupt stubs and the shell.
