# CrypthantusOS: a verified model of its allocators, file reader, scheduler and console

CrypthantusOS is a small kernel for 32-bit x86. This project models the parts of it that keep state, in the form the
kernel gives them (classes whose methods write bitmaps, header words, page tables, cursors and control blocks), and
proves what those parts are for.

- **Buddy allocator** (`Bitmap`, `BuddyTree`, `BuddyGeometry`, `BuddyMarks`, `BuddySearch`, `BuddyAllocation`,
  `BuddyRuns`, `BuddyInitialisation`, `Boot`). One bit per node of a 14-layer tree. The invariant is that a bit is 1
  exactly when its node is an ancestor-or-self of a live block. From it follow: the search takes the deepest maximal
  free block that fits, at the lowest address, and fails exactly when no block of the layer is free; the climb of
  `buddy_free` ends at the block that was allocated; coalescing is complete, and leaves the tree only for the last live
  block; the bitmap depends on the live blocks only; live and free bytes add up to the arena; every run of allocations
  and releases is a trace of the search and release relations, and releasing what is left restores the bitmap bit for
  bit.
- **Paging** (`Paging`). Two-level translation by the kernel's code and by the processor, when they agree, and what the
  page table entries written by the allocator mean: every byte of a live block can be read and written, in kernel mode
  only, at its own place in the arena.
- **Heap** (`HeapLayout`, `RawMemory`, `HeapMemory`, `HeapPayload`, `Heap`, `HeapRuns`). `malloc` and `free` on raw
  bytes: two lists threaded through 4-byte headers, sizes stored nowhere. While the heap has at most one buddy block the
  lists stay ordered and interleaved, no two free regions touch, first fit and best fit are what they say, and no
  payload is ever written. Whole runs are traces in which every object holds the bytes last stored in it until it is
  freed.
- **FAT12 reader** (`FatTable`, `FatReader`, `FatDirectory`, `FatFiles`, `FatHandles`, `FatRewind`, `FatMount`,
  `FatRecords`, `FatContents`). A buffered cursor over a cluster chain agrees with the plain byte string of the file,
  for any chunk sizes and also when a sector read fails; paths resolve as the directories say, and reading a file by its
  path gives the bytes of its clusters in their order; names, records and boot sectors mean what the FAT specification
  says, byte by byte; handles are conserved. A rewound root directory is a directory too, the one that the driver sees
  from then on, so that calls of `fat_open` can follow one another.
- **Scheduler** (`SchedulerModel`, `Scheduling`, `SchedulerRuns`). The functions of the scheduler refine a transition
  system, and over every run of it contexts are restored, waiting is bounded by one round, which ends, and a process
  that exited never runs again until its slot is taken anew.
- **Numbers** (`Numerals`, `Numbers`, `NumberScan`). The digits printed are those whose value in the radix, taken from
  the characters by Horner's rule, is the number. What is scanned is the value of the digits read, up to the first
  character that ends a number. Scanning what was printed gives the number back.
- **Console** (`ConsoleModel`, `ConsoleKeys`, `ConsoleRuns`, `Console`). What one character or key does to the screen is
  a relation that `putc` refines; over every session of prints, keys and scans a printed text stays where it was put,
  exactly as long as the scans leave the cursor behind it.
- `Basics` and `Sequences` hold what several of these share.

Where the source keeps state outside an object, the model passes it in: the memory map, the disk (a total map from
sector number to 512 bytes), which sector reads fail, the timer's tick count and the saved registers. `ghost` fields
(`live`, `layout`, `sizes`, `source`) say what the concrete bytes stand for; each `Valid` ties them together.

## Preconditions taken from the system

- Geometry: 2 to 14 layers, largest block = smallest block times 2^(layers - 1). `BuddyInitialisation.LayersMeetExactly`
  says which memory maps give that. That live blocks stay mapped is stated for smallest blocks of whole pages;
  `BuddyInitialisation.WholePagesIff` says which memory maps give those.
- `buddy_free` gets null or the start of a live block.
- `free` gets null, a pointer whose header lies in no heap block, or a pointer to a live object.
- FAT: every name along a path to be opened is convertible, and what it names is an empty file or starts a finite
  cluster chain (`WellFormedAlong`).
- Processes are created by the kernel, not by another process.
- Page tables lie at page-aligned addresses, anywhere in physical memory.

## Findings

Places where the code does not do what its form, its comments or its own documentation suggest. Each is stated with the
exact condition under which it does.

- `i686_physical_addr` keeps bits 10 and 11 of the page table entry, and uses bits 10 and 11 of the directory entry as
  address bits of the table. It agrees with the processor's two-level translation (Intel SDM volume 3A, section 4.3), in
  every memory and for every address, if and only if these four bits are zero (`Paging.WalkAgreesIff`; the last step
  alone: `Paging.CombineAgreesIff`). It does not look at the present bits either: where the processor translates at all,
  the two agree if and only if the four bits are zero or the directory entry is not present
  (`Paging.AccessAgreesIff`). The kernel's own entries have them zero, and live bytes translate alike for both
  (`Paging.Mmu.LiveBytesTranslate`).
- An entry that `buddy_free` resets is not cleared: it is 3, present and writable, so that a released page leads to
  physical page 0, which the processor reads and writes there (`Paging.Mmu.ReleasedPage`, `Paging.Mmu.ReleasedBlock`).
- Smallest blocks are whole pages if and only if the region has at least 64 MB; else at least two of them share a page
  (`BuddyInitialisation.WholePagesIff`), and releasing one resets the entry under another live one
  (`BuddyRuns.SharedPageLost`).
- The coalescing loop of `buddy_free` leaves the tree, for layer -1, if and only if no other block is live
  (`BuddyAllocation.BuddyAllocator.Coalesce`). `heap_init` takes a block that is never released, so the heap never
  comes to that (`Boot.HeapInit`).
- `buddy_init` adds 1 to the end of the region before it rounds down. The arena lies inside the region if and only if
  the region does not end one byte short of a page boundary (`BuddyInitialisation.ArenaInsideRegion`).
- The layers meet (`min << (layers - 1) == max`) if and only if the region has at least 32 KB, or 2 or 3 bytes
  (`BuddyInitialisation.LayersMeetExactly`).
- The fallback of `buddy_alloc` for the largest block (`src/kernel/util/buddy_alloc.c:191-200`) can be entered but never
  succeeds: the root is marked whenever the search fails for the largest block (`BuddyAllocation.BuddyAllocator.Alloc`,
  where the taking of the block is refuted).
- `fat_close` rewinds the root directory's position but not its buffer. Which bytes it then reads is exact: those of the
  stored directory, but the sector where the last scan ended in the place of the first (`FatHandles.FileTable.Close`,
  `FatHandles.FileTable.LookUp`). They are the stored ones if and only if those two sectors are equal on disk, as they
  are if the scan stayed in the first sector (`FatDirectory.RewoundAsStored`). Otherwise `fat_open` can miss a file it
  found before: `FatRewind.OpenTwice` mounts a disk on which it does.
- The most negative number is printed wrongly as an `int`, as -18446744071562067968, since its negation wraps and its
  sign is then extended to 64 bits. The text printed for a signed argument is that of its absolute value behind its sign
  if and only if the argument is a `long` or another number (`Numbers.PrintfNumber`). Scanning nevertheless gives it
  back, if negation wraps around in two's complement.
- A scanned number may have one minus and one plus at any place, also between and behind its digits, and blanks in front
  of its first digit, also behind a sign (`NumberScan.EndsAt`).
- A process that exits is marked as gone but goes on running until the next timer interrupt at which it is not held
  off as a thread, and then not again (`SchedulerRuns.ExitedNeverRuns`). A process that it created in that time could
  get its slot and lose the registers set for it (`SchedulerRuns.CreatedWhileExiting`).
- Printed characters are said to be out of the keyboard's reach (`src/kernel/include/stdio.h:14-17`). A text of plain
  characters, line feeds and tabs, printed while the cursor is at or behind the output position, stays in every session,
  each character at its place until it leaves the screen at the top, if every scan since then ended with the cursor at
  or behind the output position (`ConsoleRuns.PrintStays`). That condition is exact: a scan puts the output position
  where the cursor is (`src/kernel/include/stdio.c:551-552`), and the next plain key overwrites a cell in front of the
  old output position if and only if the cursor was in front of that (`ConsoleRuns.ScanLosesIff`). Where the cursor was
  when Enter was pressed decides: the scan ends well if it was on the row of the output position or below, or one row
  above with the output position at the start of its row, and else not (`ConsoleRuns.EnterLeavesFree`). With `A` printed
  in the second row, the keys up, Enter, right and backspace erase it (`Console.Terminal.ScanUncovers`).
- Text that ends in a carriage return is in front of the output position as a whole if and only if the return came at
  the start of a row (`ConsoleRuns.ReturnCoversIff`); otherwise the end of it stays in reach, as `A` and a return from
  the top left corner do (`Console.Terminal.ReturnUncovers`). A return and a line feed do no harm
  (`ConsoleRuns.ReturnLineCovers`).
- A plain character or tab that is printed while the cursor is in front of the output position is dropped
  (`ConsoleModel.Typed`); it never appears.
- The test for a full gap in `malloc` (`src/kernel/include/heap_allocator.c:269`) cannot succeed below the guard in line
  267.

## Model

| member | source | states |
|---|---|---|
| Bitmap.SetBitRead | src/kernel/util/buddy_alloc.c:17-33 | writing a bit of the byte array changes that bit and no other |
| Bitmap.BitWorth | src/kernel/util/buddy_alloc.c:17-33 | bit k of a byte is worth 2^k |
| BuddyMarks.BitIndexInjective | src/kernel/util/buddy_alloc.c:11-33 | two different nodes of the tree never share a bit |
| BuddyMarks.BitIndexOnto | src/kernel/util/buddy_alloc.c:6-19 | every bit below 2^layers - 1 belongs to a node |
| BuddyMarks.TableIndex | src/kernel/util/buddy_alloc.c:11-21 | the constant table gives each node its bit, inside the 2048-byte array |
| BuddyMarks.BitmapDeterminedByLive | src/kernel/util/buddy_alloc.c:99-242 | the bytes of the bitmap depend on the live blocks only, not on the history |
| BuddyMarks.BitmapDeterminesMarks | src/kernel/util/buddy_alloc.c:214-221 | conversely the bitmap determines the live blocks |
| BuddyTree.MaximalFreeByMarks | src/kernel/util/buddy_alloc.c:128-154 | parent occupied, node empty, buddy occupied: exactly the maximal free blocks |
| BuddySearch.OffersMeaning | src/kernel/util/buddy_alloc.c:126-158 | on the way up the search stops at a node if and only if it is a maximal free block |
| BuddySearch.NoFreeIffNoMaximal | src/kernel/util/buddy_alloc.c:119-189 | a layer has a free block if and only if a maximal free block lies at or above it |
| BuddySearch.FitLayer | src/kernel/util/buddy_alloc.c:109-115 | the chosen layer's blocks hold the request and those of deeper layers do not |
| BuddyAllocation.BuddyAllocator.BuddyBlock | src/kernel/util/buddy_alloc.c:17-24 | reads the mark of a node |
| BuddyAllocation.BuddyAllocator.BuddyBlockSet | src/kernel/util/buddy_alloc.c:26-33 | changes the mark of one node |
| BuddyAllocation.BuddyAllocator.ScanLayer | src/kernel/util/buddy_alloc.c:125-188 | the first node of a layer, from a start on, that offers a block; none if there is none |
| BuddyAllocation.BuddyAllocator.Search | src/kernel/util/buddy_alloc.c:117-189 | climbs, then descends by splitting; ends in the requested layer inside the chosen maximal free block, or changes no bit; a failing search has gone through all layers if and only if not both halves of the arena were occupied |
| BuddyAllocation.BuddyAllocator.MapPages | src/kernel/util/buddy_alloc.c:165-172 | sets the entries of the block's pages to their physical places, and no others |
| BuddyAllocation.BuddyAllocator.UnmapPages | src/kernel/util/buddy_alloc.c:234-241 | resets the entries of the block's pages to the bare flags, and touches no others |
| BuddyAllocation.BuddyAllocator.Alloc | src/kernel/util/buddy_alloc.c:99-207 | fails if and only if no block of the rounded-up size is free, changing nothing; else carves the lowest block out of the deepest, lowest maximal free block that fits, maps its pages and keeps the invariant; the fallback for the largest block takes none |
| BuddyAllocation.BuddyAllocator.ClimbToOwner | src/kernel/util/buddy_alloc.c:214-221 | the upward walk from the smallest block at the address stops at exactly the allocated node |
| BuddyAllocation.BuddyAllocator.Coalesce | src/kernel/util/buddy_alloc.c:223-232 | leaves the tree if and only if no other block is live; else ends at the maximal free block around the released one; all marks are right in both cases |
| BuddyAllocation.BuddyAllocator.Free | src/kernel/util/buddy_alloc.c:209-242 | removes exactly that block, also the last one, and then tells that the loop left the tree; else coalesces fully and resets page table entries of the maximal free block only |
| BuddyAllocation.AllocThenFree | src/kernel/util/buddy_alloc.c:99-242 | an allocation, with its exact failure condition and its place in the chosen free block, and the release of its result restore the bitmap bit for bit |
| BuddyGeometry.NestedSpan | src/kernel/util/buddy_alloc.c:165-174 | an ancestor's bytes contain its descendants' |
| BuddyGeometry.DisjointSpans | src/kernel/util/buddy_alloc.c:165-174 | blocks that are not ancestors of one another share no byte |
| BuddyGeometry.BytesConserved | src/kernel/util/buddy_alloc.c:99-242 | live sizes and maximal free block sizes add up to the largest block |
| BuddyRuns.AllocTakes | src/kernel/util/buddy_alloc.c:117-189 | an allocation lowers the free bytes by exactly its block, whatever was split |
| BuddyRuns.FreeGives | src/kernel/util/buddy_alloc.c:223-232 | a release raises them by exactly its block, whatever was coalesced |
| BuddyRuns.Run | src/kernel/util/buddy_alloc.c:99-242 | any run of allocations and releases in any order keeps the invariant and is a trace: each step refuses exactly if no block is free, takes the chosen block, or gives the named one back |
| BuddyRuns.HeldApart | src/kernel/util/buddy_alloc.c:99-242 | blocks held at the same time share no byte and lie in the arena |
| BuddyRuns.RunAndRelease | src/kernel/util/buddy_alloc.c:99-242 | after any such trace, at whose end the program holds the addresses returned, releasing these restores the bitmap bit for bit |
| BuddyRuns.SharedPageLost | src/kernel/util/buddy_alloc.c:234-241 | with two smallest blocks in a page, releasing one resets the entry under the other, which is live |
| BuddyInitialisation.FindLargest | src/kernel/util/buddy_alloc.c:44-59 | the first usable region of greatest length, lengths cut to a signed 32-bit integer |
| BuddyInitialisation.BitLength | src/kernel/util/buddy_alloc.c:65-70 | the number of significant bits |
| BuddyInitialisation.BuddyInit | src/kernel/util/buddy_alloc.c:42-97 | fails if and only if no usable region has a positive length; else the geometry of the largest region |
| BuddyInitialisation.MaxBlockIsLargestPower | src/kernel/util/buddy_alloc.c:63-72 | the largest block is the greatest power of two at most half the region |
| BuddyInitialisation.LayersMeetExactly | src/kernel/util/buddy_alloc.c:72-74 | doubling the smallest block through all layers gives the largest, if and only if the region has 32 KB (or 2 or 3 bytes) |
| BuddyInitialisation.InitGivesValidGeometry | src/kernel/util/buddy_alloc.c:61-79 | from 32 KB to 2 GB the geometry is one the allocator can work with, of at most 512 MB |
| BuddyInitialisation.WholePagesIff | src/kernel/util/buddy_alloc.c:72-73 | the smallest block is whole pages if and only if the region has at least 64 MB, and else at most half a page |
| BuddyInitialisation.ArenaInsideRegion | src/kernel/util/buddy_alloc.c:76-79 | the arena lies on the last pages that end at most one byte behind the region; it starts inside the region, and ends inside it if and only if the region does not end one byte short of a page |
| Boot.HeapInit | src/kernel/include/heap_allocator.c:85-101 | takes the metadata block, which stays live, leaves an empty heap and places the table of heap blocks at the end of the metadata block; fails, with no bytes, exactly if the allocation does |
| Boot.Start | src/kernel/util/buddy_alloc.c:42-97 | on every supported memory map the system comes up with an empty heap whose metadata is the first block of the arena and a page directory that leads to the allocator's tables; blocks are whole pages if and only if the chosen region has 64 MB |
| Boot.StartPaging | src/kernel/util/buddy_alloc.c:81-91 | a fresh allocator with its tables installed in a fresh page directory, wherever the tables lie |
| Paging.CombineAgreesIff | src/kernel/arch/i686/page.c:38-39 | the last step of the translation agrees with the processor's for all addresses if and only if bits 10 and 11 of the table entry are zero |
| Paging.WalkAgreesIff | src/kernel/arch/i686/page.c:34-40 | the walk through both levels agrees with the processor's, in every memory and for every address, if and only if bits 10 and 11 of the directory entry and of the table entry are zero |
| Paging.CombineBits | src/kernel/arch/i686/page.c:38-39 | which bits the last step takes from the entry, which from the address, and which two from both |
| Paging.AccessAgreesIff | src/kernel/arch/i686/page.c:28-40 | where the processor translates an address, the kernel's code gives the same one, if and only if bits 10 and 11 of both entries are zero or the directory entry is not present |
| Paging.Mmu.InstallTables | src/kernel/util/buddy_alloc.c:81-91 | enters one table for each 4 MB of the arena, present and writable, in directory slots 512 to 767 only, and each table into page table 0 at its own page, where the last one of several for a slot stays |
| Paging.Mmu.LiveBytesTranslate | src/kernel/arch/i686/page.c:28-40 | every byte of every live block translates to its own offset in the arena, by the kernel's code and by the processor, which can read and write it in kernel mode only, in every memory that holds the tables |
| Paging.Mmu.LiveBytesDistinct | src/kernel/arch/i686/page.c:34-40 | distinct live bytes have distinct physical addresses, and bytes of different blocks are distinct |
| Paging.Mmu.ReleasedPage | src/kernel/util/buddy_alloc.c:234-241 | an address whose entry was reset still translates, to its offset in physical page 0, and can be read and written there |
| Paging.Mmu.ReleasedBlock | src/kernel/util/buddy_alloc.c:234-241 | so does every address of the block whose entries a release has reset |
| HeapLayout.PlaceValid | src/kernel/include/heap_allocator.c:262-284 | serving a request from a gap keeps the lists ordered, interleaved and rooted at the first byte of the block |
| HeapLayout.PlaceMeaning | src/kernel/include/heap_allocator.c:262-284 | the bytes that stop being free are exactly those of the object, with a remainder too short for a header |
| HeapLayout.ReleaseValid | src/kernel/include/heap_allocator.c:409-471 | a release keeps the layout well formed: no two free regions touch |
| HeapLayout.ReleaseMeaning | src/kernel/include/heap_allocator.c:409-471 | in all four merge cases exactly the object's bytes become free |
| RawMemory.WordBytes | src/kernel/include/heap_allocator.c:262-284 | a word lies in memory with its lowest byte first |
| RawMemory.InsertLinked | src/kernel/include/heap_allocator.c:263-265 | the two stores at a link insert a header in the list there |
| RawMemory.RemoveLinked | src/kernel/include/heap_allocator.c:402-403 | the store at a link removes the next header |
| HeapMemory.ListsApart | src/kernel/include/heap_allocator.c:83-84 | in a well-formed layout no header belongs to both lists, and no two header words overlap |
| HeapMemory.PlaceHolds | src/kernel/include/heap_allocator.c:262-284 | after the stores of `malloc` the memory holds the layout with the object placed |
| HeapMemory.ReleaseHolds | src/kernel/include/heap_allocator.c:380-471 | after the stores of `free` the memory holds the layout with the object released |
| HeapPayload.PlaceKeepsPayload | src/kernel/include/heap_allocator.c:262-284 | no store of `malloc` touches a live payload |
| HeapPayload.ReleaseKeepsPayload | src/kernel/include/heap_allocator.c:380-471 | no store of `free` touches a live payload |
| Heap.Heap.SearchGap | src/kernel/include/heap_allocator.c:131-218 | finds a gap if and only if one fits: the lowest for first fit, the smallest and lowest for best fit |
| Heap.Heap.AllocateInBetween | src/kernel/include/heap_allocator.c:262-284 | performs exactly the stores of a placement |
| Heap.Heap.MallocFirst | src/kernel/include/heap_allocator.c:110-128 | an empty heap takes a buddy block and starts it with the object; behind it all bytes are free if more than a header is left, and else none |
| Heap.Heap.Malloc | src/kernel/include/heap_allocator.c:103-289 | below 8 KB the lowest gap that fits, else the smallest; the first object of a block with the rest of it free; a further block only if none fits; failures change nothing and live payloads are kept |
| Heap.BehindFirst | src/kernel/include/heap_allocator.c:121-125 | a request fits behind the first object if and only if it is no longer than the rest, and is then placed there |
| Heap.MallocTwice | src/kernel/include/heap_allocator.c:103-289 | two requests on an empty heap: the second lies right behind the first, with a header between them, if and only if both fit in the block |
| HeapMemory.FirstFrees | src/kernel/include/heap_allocator.c:117-126 | behind the first object of a block exactly the rest is free, if more than 4 bytes are left, and else nothing |
| Heap.TookGapMeans | src/kernel/include/heap_allocator.c:131-218 | which gap a placed request is in, in bytes: the first that fits for requests below 8192 with their header, else the smallest and lowest |
| Heap.Heap.Unlink | src/kernel/include/heap_allocator.c:380-407 | takes the object out of the allocated list |
| Heap.Heap.ReconnectBehind | src/kernel/include/heap_allocator.c:429-471 | in the cases fanaf, fanf, fnaf and fnf the free list is as the layout says |
| Heap.Heap.Reconnect | src/kernel/include/heap_allocator.c:409-471 | the free list takes the object back, merged with the free regions it touches |
| Heap.Heap.ClearBlock | src/kernel/include/heap_allocator.c:473-516 | the block goes back to the buddy allocator if and only if no object is left in it; neither walk goes beyond its first turn |
| Heap.Heap.Free | src/kernel/include/heap_allocator.c:370-517 | releases exactly that object and keeps all other payloads; foreign pointers change nothing |
| Heap.FreeAll | src/kernel/include/heap_allocator.c:370-517 | freeing all objects in any order empties both lists and the slot and restores the buddy bitmap |
| HeapRuns.PayloadHarmless | src/kernel/include/heap_allocator.c:83-84 | a program that writes only in its object cannot damage the heap |
| HeapRuns.OwnersApart | src/kernel/include/heap_allocator.c:284-284 | payloads of different live objects never overlap |
| HeapRuns.Run | src/kernel/include/heap_allocator.c:103-517 | any run of requests, stores and releases, up to the first request that no gap of the block holds, is a trace: each step refuses exactly if the heap has no block and none is to be had, places the object by first or best fit, stores, or releases; each object held has exactly the bytes last stored in it |
| HeapRuns.RunsToFirst | src/kernel/include/heap_allocator.c:220-226 | a run ends early at the first request that would take a further block, and at no other step |
| HeapRuns.SecondBehindFirst | src/kernel/include/heap_allocator.c:103-289 | the same for every trace: what follows the request that starts a block is placed behind it or outgrows the block, and exactly when |
| HeapRuns.RunAndRelease | src/kernel/include/heap_allocator.c:103-517 | after any such trace, at whose end the program holds the objects returned, releasing these empties the heap and restores the buddy bitmap bit for bit |
| FatTable.UnpackEntry | src/kernel/hal/fat.c:56-64 | every 12-bit entry of every packed table is recovered |
| FatContents.ChainStored | src/kernel/hal/fat.c:239-250 | the clusters of a chain are those that the 12-bit entries stored in the table link, up to an entry of 0xFF8 or above |
| FatTable.Stage1Agrees | src/bootloader/stage1/boot.asm:150-168 | the first stage, which takes the parity of 3k, decodes the same entry |
| FatReader.FatDriver.AdvanceCursor | src/kernel/hal/fat.c:239-250 | moves to the next sector of the chain, and notices its end exactly there |
| FatReader.FatDriver.NextSector | src/kernel/hal/fat.c:225-258 | prefetches across sector and cluster boundaries; a failed read or the end of the chain stops the call |
| FatReader.FatDriver.CopyChunk | src/kernel/hal/fat.c:215-222 | copies the bytes of the file at the position, to the end of the sector at most |
| FatReader.FatDriver.Read | src/kernel/hal/fat.c:201-262 | the next bytes of the file, all that were asked for or up to its end; a correct prefix also when a sector read fails |
| FatFiles.ReadChunks | src/kernel/hal/fat.c:201-262 | any sequence of reads with any chunk sizes returns the successive bytes of the file |
| FatFiles.LoadKernel | src/bootloader/stage2/main.c:50-56 | the load loop ends and leaves exactly the bytes of the file at the load address |
| FatFiles.FindFile | src/kernel/hal/fat.c:101-139 | the first record of the converted name, or none if the directory has none; the position ends behind that record, or at the end |
| FatRecords.NameAlone | src/kernel/hal/fat.c:103-116 | a name without a dot: its first eight bytes with small letters made capital, then spaces |
| FatRecords.NameWithExtension | src/kernel/hal/fat.c:103-124 | a name with an extension: bytes 0 to 7 are what is in front of the dot, capital, then spaces; bytes 8 to 10 are the first three of the extension in their order, capital |
| FatRecords.ShortExtension | src/kernel/hal/fat.c:117-122 | a name with a dot is converted completely if and only if its extension has at least three bytes |
| FatRecords.RecordRead | src/libs/boot/bootlib.h:18-32 | an entry stored in the 32 bytes of a record, low bytes first, is the one the driver reads |
| FatDirectory.FatNameSame | src/kernel/hal/fat.c:103-134 | two well-formed names select the same record if and only if they differ in the case of letters only |
| FatDirectory.ChainOnce | src/kernel/hal/fat.c:239-250 | a cluster starts at most one chain |
| FatDirectory.RewoundAsStored | src/kernel/hal/fat.c:269-275 | after a rewind the root reads as stored if and only if the sector where the scan ended equals the first, always if it is the first |
| FatRewind.OpenTwice | src/kernel/hal/fat.c:148-199 | from a boot sector that `fat_init` accepts: a path that resolves is opened by the first call and missed by the second, with no failing read and no change on disk |
| FatHandles.FileTable.OpenEntry | src/kernel/hal/fat.c:67-99 | takes the lowest free handle, at the start of the entry's file, empty or not; all open handles stay as they are |
| FatHandles.FileTable.Close | src/kernel/hal/fat.c:269-280 | frees the handle, or rewinds the root directory, whose first sector is from then on the one in its buffer |
| FatHandles.FileTable.LookUp | src/kernel/hal/fat.c:177-191 | looks a name up and closes the directory; the root is left at its start, as the directory that the scan's last sector makes of it |
| FatHandles.FileTable.Open | src/kernel/hal/fat.c:148-199 | opens the entry the path resolves to and exactly one more handle, or fails with none if there is no such path; leaves the root ready for the next call, which resolves its path in the rewound directory |
| FatHandles.FileTable.ReadHandle | src/kernel/hal/fat.c:201-262 | reading through one handle leaves cursor and buffer of every other one as they were |
| FatContents.BytesAreContents | src/kernel/hal/fat.c:50-54 | the bytes the driver reads as those of a file are those of its clusters, sector by sector in the order of the chain, with cluster 2 right behind the root directory |
| FatContents.ReadPath | src/kernel/hal/fat.c:148-262 | opening a file by its path and reading from it gives the first bytes of its clusters, as many as are asked for or as its record says it has |
| FatHandles.LookupStep | src/kernel/hal/fat.c:157-196 | resolving a path is resolving the rest from what its first name leads to |
| FatRecords.ComponentsJoin | src/kernel/hal/fat.c:157-175 | the names taken from a path contain no slash and, joined by slashes, are the path but for a trailing one |
| FatRecords.SlashInFront | src/kernel/hal/fat.c:152-153 | one slash in front of a path does not matter |
| FatMount.FatInit | src/bootloader/stage2/fat.c:109-167 | fails if and only if a read fails or the table does not fit; else opening a path can start, with no file open |
| FatRecords.BootRead | src/libs/boot/bootlib.h:53-77 | a boot sector laid out as the specification says is read as such |
| FatRecords.RegionsMeet | src/bootloader/stage2/fat.c:140-160 | the root directory starts where the last file allocation table ends |
| FatRecords.RoomForTable | src/bootloader/stage2/fat.c:124-132 | with sectors of 512 bytes there is room for tables of at most 115 sectors |
| FatMount.WholeFatLoaded | src/bootloader/stage2/fat.c:124-138 | a table that passes the size check is read whole, although the sector count is passed as a byte |
| FatMount.ClustersApart | src/bootloader/stage2/fat.c:19-22 | different clusters have different sectors, all behind the root directory |
| FatMount.RootBeforeData | src/bootloader/stage2/fat.c:140-160 | the root directory ends right in front of the first cluster |
| Scheduling.Scheduler.FindProcess | src/kernel/hal/scheduler.c:63-72 | the first slot from an index on that is present, or free |
| Scheduling.Scheduler.OnTimer | src/kernel/hal/scheduler.c:74-125 | refines the timer step of the transition system |
| Scheduling.Scheduler.CreateUserProcess | src/kernel/hal/scheduler.c:127-181 | refines the creation step: the first free slot, or failure |
| Scheduling.Scheduler.RemoveCurrentProcess | src/kernel/hal/scheduler.c:49-56 | refines the exit step, which takes the process out of its slot |
| SchedulerModel.Find | src/kernel/hal/scheduler.c:63-72 | the slot found is the first of its kind |
| SchedulerRuns.ThreadUndisturbed | src/kernel/hal/scheduler.c:76-80 | a timer interrupt within the first five ticks of a thread changes nothing |
| SchedulerRuns.TimerGoesOn | src/kernel/hal/scheduler.c:82-94 | every other one goes on to the next slot in use, or to the kernel if none follows |
| SchedulerRuns.CreationTakes | src/kernel/hal/scheduler.c:127-181 | creation marks the first free slot as in use, with the priority asked for, and leaves all others and what runs as they are; with no free slot it changes nothing |
| SchedulerRuns.ExitTakesOut | src/kernel/hal/scheduler.c:49-56 | exit clears the present bit of the running process alone, and its registers; all other slots, and what runs, stay |
| SchedulerRuns.ResumedAsSuspended | src/kernel/hal/scheduler.c:74-125 | in every run a context that is resumed finds its registers as they were at its last suspension |
| SchedulerRuns.FirstRunAsCreated | src/kernel/hal/scheduler.c:101-181 | in every run a new process starts with the instruction pointer, stack, flags, segments and argument of its creation and with all other registers of what ran before it |
| SchedulerRuns.RoundAscends | src/kernel/hal/scheduler.c:87-91 | between two kernel slices the processes run in ascending slot order |
| SchedulerRuns.RoundEnds | src/kernel/hal/scheduler.c:74-125 | once the kernel has lost the processor, it has it back after at most as many timer steps, not held off for a thread, as there are slots |
| SchedulerRuns.EveryProcessRunsOnce | src/kernel/hal/scheduler.c:63-94 | in that time exactly the processes present at its start run, one uninterrupted slice each |
| SchedulerRuns.ExitedNeverRuns | src/kernel/hal/scheduler.c:49-125 | in every run, as long as no creation takes its slot: a process that exited is not present, and once it has left the processor it does not get it back |
| SchedulerRuns.CreatedWhileExiting | src/kernel/hal/scheduler.c:82-91 | a creation that takes the slot of a process that exited and still runs loses its registers: at the next switch the slot gets those of the old process |
| Numbers.FillDigits | src/kernel/include/stdio.c:275-283 | the buffer holds the digits of the number, reversed, in at most 22 places |
| Numbers.TextMeans | src/kernel/include/stdio.c:275-283 | the digits of a number, by their character values, denote it in every radix from 2 to 16 and both cases, without leading zeros |
| Numbers.PrintfNumber | src/kernel/include/stdio.c:234-295 | padding zeros, sign and digits, which have the value of the argument in the radix, no leading zero and letters of the case asked for; for a signed one those of its absolute value if and only if it is a `long` or not the most negative number |
| Numbers.TextTellsNumber | src/kernel/include/stdio.c:269-294 | behind a sign, different numbers are never printed as the same text |
| NumberScan.ScanNumber | src/kernel/include/stdio.c:496-542 | stops at the first character that ends a number, and returns the value of the digits read with their sign, modulo 2^32 |
| NumberScan.ScanMeans | src/kernel/include/stdio.c:506-536 | from any point of the loop on: its variables tell what was read, and it stops at the first character that ends a number |
| NumberScan.ScanOfPrinted | src/kernel/include/stdio.c:234-542 | scanning a printed number gives it back, for every 32-bit value and minimum digit count |
| Console.Terminal.Scroll | src/kernel/include/stdio.c:61-91 | every row moves up by one, the output position with them |
| Console.Terminal.Backspace | src/kernel/include/stdio.c:129-151 | erases the character in front of the cursor, unless it lies in front of the output position |
| Console.Terminal.Putc | src/kernel/include/stdio.c:110-223 | refines the relation of one character or key: the cursor stays on the screen and nothing in front of the output position changes, but for scrolling by one row; a plain character, tab or line feed is written at the cursor or dropped, a backspace erases one character or none, and cursor keys, line feed and carriage return take the cursor where they aim or to the end of the text there |
| Console.Terminal.PressKey | src/kernel/include/stdio.c:116-223 | where a cursor key, line feed or carriage return takes the cursor, from its aim to the end of the text, the next line and the scrolled screen; no cell changes but by scrolling |
| ConsoleKeys.UpKey | src/kernel/include/stdio.c:152-155 | one row up, to the end of the text there if it is shorter, and never above the first row |
| ConsoleKeys.DownKey | src/kernel/include/stdio.c:157-160 | one row down, but not below the row of the output position |
| ConsoleKeys.LeftKey | src/kernel/include/stdio.c:162-165 | one column back; from the first column to the end of the row above; the top left corner holds |
| ConsoleKeys.RightKey | src/kernel/include/stdio.c:167-177 | on text one column on, behind the last column to the next row, with the screen moving up from the last one; on an empty cell to the start of the next row, unless that is below the row of the output position |
| ConsoleKeys.ReturnKey | src/kernel/include/stdio.c:127-129 | a carriage return goes to the start of the row |
| ConsoleKeys.EnterKey | src/kernel/include/stdio.c:116-119 | a line feed goes to the start of the next row, with the screen moving up from the last one |
| ConsoleKeys.BackspaceKey | src/kernel/include/stdio.c:131-150 | which cell a backspace changes and to what, a blank if text follows in the row and an empty cell otherwise, and where the cursor goes |
| ConsoleKeys.DroppedKey | src/kernel/include/stdio.c:179-207 | a plain character in front of the output position changes no cell, and takes the cursor to the end of the text at most |
| ConsoleKeys.TextEndUnique | src/kernel/include/stdio.c:196-207 | the end of the text at which the cursor lands is one place |
| Console.Terminal.PutAll | src/kernel/include/stdio.c:110-232 | the characters and keys have their effects one after the other; nothing in front of the output position changes, and a text that never takes the cursor back stands where it was put, with the cursor behind it |
| ConsoleRuns.TypingKeeps | src/kernel/include/stdio.c:110-223 | no sequence of characters and keys changes what is in front of the output position, which moves with the screen only |
| ConsoleRuns.TypingStands | src/kernel/include/stdio.c:110-223 | plain characters, tabs and line feeds from a free cursor on stand each at its own place behind the earlier text |
| Console.Terminal.PutText | src/kernel/include/stdio.c:225-232 | a printed text stands on the screen character by character, but for what has scrolled away |
| Console.Terminal.UpdateOutput | src/kernel/include/stdio.c:431-438 | the output position never goes back, and follows the cursor to rows at or below its own |
| Console.Terminal.Print | src/kernel/include/stdio.c:301-441 | earlier text stays, and text that never takes the cursor back ends up in front of the output position, each character at its place |
| ConsoleRuns.ReturnCoversIff | src/kernel/include/stdio.c:431-438 | text that ends in a carriage return is in front of the output position as a whole if and only if the return came at the start of a row |
| ConsoleRuns.ReturnLineCovers | src/kernel/include/stdio.c:431-438 | with a line feed behind the return it always is |
| Console.Terminal.PrintThenKeys | src/kernel/include/stdio.h:14-17 | whatever keys follow, a printed text of plain characters, tabs and line feeds stays on the screen, each character at its place, but for what has scrolled away |
| Console.Terminal.EndScan | src/kernel/include/stdio.c:550-556 | the output position is put where the cursor is, which does not take it back if and only if the cursor is free; the wrap to the row above never happens |
| Console.Terminal.Session | src/kernel/include/stdio.c:110-562 | prints, keys and scans in any order are a session of these relations |
| ConsoleRuns.SessionKeeps | src/kernel/include/stdio.h:14-17 | in every session what is in front of the output position stays, as long as every scan ends with a free cursor |
| ConsoleRuns.PrintStays | src/kernel/include/stdio.h:14-17 | in every session a printed text stands until it leaves the screen, as long as every scan after it ends with a free cursor |
| ConsoleRuns.ScanLosesIff | src/kernel/include/stdio.c:550-556 | after a scan the next plain key overwrites something in front of the old output position if and only if the cursor was not free |
| ConsoleRuns.EnterLeavesFree | src/kernel/include/stdio.c:116-223 | the row in which Enter is pressed decides whether the scan ends with a free cursor |
| Console.Terminal.ScanUncovers | src/kernel/include/stdio.c:443-556 | a printed character, and the keys up, Enter, right and backspace during a scan, which erase it |
| Console.Terminal.ReturnUncovers | src/kernel/include/stdio.c:127-138 | one text in one state for which the condition of ReturnCoversIff fails: `A` and a return from the top left corner, erased by two keys |

## Left out

- Heap.Heap.Malloc: models a heap of at most one buddy block. When no gap fits, the result says that a further block would be requested, and nothing changes; with several blocks the code does not keep its own ordering comment (`src/kernel/include/heap_allocator.c:83-84`), because gaps are measured while the walk may still be in another block.
- HeapRuns.Run: ends at the first request that would need a second block, and says so; what the source does from there on, with a further block or by refusing, is not modelled.
- Heap.Heap.SearchGap: of the walk past the objects of other blocks (`src/kernel/include/heap_allocator.c:175-188`) the first turn is modelled, which with one block is the last; the contract has no case for more.
- Heap.Heap.ClearBlock: likewise for the two walks of `free_clear_blocks`; that a further turn would start is refuted.
- Heap.Heap.Free: excludes a pointer into the heap block that is not a live object.
- Boot.Start: the metadata block is taken to be zero when `heap_init` returns, as the code relies on but does not arrange; the cursor fields of the metadata are local variables, and of the table of heap blocks only its place, its length and its first slot are modelled.
- BuddyAllocation.BuddyAllocator.Free: once the coalescing loop has left the tree, which the result tells, the bits it would read in front of layer 0, and the page table entries it would reset after that, are not modelled; pointers that start no live block are excluded.
- Paging.Mmu.InstallTables: the physical addresses of the tables are parameters; the lookup that finds them is `Paging.WalkAgreesIff`'s walk in a directory the boot loader filled.
- Paging.Mmu.LiveBytesTranslate: smallest blocks below one page share page table entries; `BuddyRuns.SharedPageLost` shows that the statement does not extend to them.
- FatReader.FatDriver.Read: after a failed sector read later calls read a stale buffer, for which nothing is stated; positions are unbounded integers.
- FatFiles.FindFile: names with an extension of one or two characters leave bytes of the converted name unset and are excluded.
- FatHandles.FileTable.Open: takes sector reads to succeed and a handle to be free; with either failing inside a path the code goes on with a null directory. The test for a plain file in the middle of a path (`src/kernel/hal/fat.c:181`) never succeeds and is not modelled; a path component that is a file is searched as a directory, as the code does. A directory whose record has first cluster 0, as `..` has in a subdirectory of the root, starts no chain and is excluded (`FatDirectory.WellFormedAlong`). The loader's copy ends path components one byte late (`src/bootloader/stage2/fat.c:185`), which is not modelled.
- Scheduling.Scheduler.CreateUserProcess: the page table of the process, the interrupt flag when the table is full, and the one-time set-up of user mode are left out; addresses and flags are parameters.
- SchedulerRuns.ResumedAsSuspended: says nothing of a process that exited, which runs on until the next timer interrupt and is never resumed.
- NumberScan.ScanOfPrinted: negating the most negative number is taken to wrap around; `long` has 32 bits, as on this machine.
- Numbers.PrintfNumber: radices from 8 to 16, which are those the callers use.
- Console.Terminal.Print: takes the text that `writef` has put together; conversions, the log prefixes with their colours and the echo switch are left out.
- Console.Terminal.EndScan: the waiting for Enter is not modelled, since keys can come at any time; neither is the copying of the typed line from the screen (`src/kernel/include/stdio.c:455-469`) nor the specifier `%s`; `NumberScan` has the specifier `%d` on a given line.
- Console.Terminal.Putc: colours, the count of characters and the hardware cursor are left out.
- `realloc` and `zmalloc`: the first can walk off the free list, the second never advances its pointer.
- Size overflow in `malloc` and `buddy_alloc`: sizes are unbounded here.
- The floppy controller, DMA, interrupt controller and firmware calls, and all assembly but the decoder of the first stage.
- Descriptor tables, interrupt gates, keyboard tables, the shell and the kernel's main function: data tables or user interface.
- String and character helpers and the bounded stack: short loops with easy claims only.
