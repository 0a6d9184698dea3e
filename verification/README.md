# BadOS, verified

BadOS is an x86_64 kernel whose one purpose is to play a black-and-white video. This project models the parts of it
that carry its meaning and proves them correct: the memory stack of the kernel, the executable format from linker to
loader, the video from the converter's RGB frames to the pixels of the framebuffer, the kernel heap, the ramdisk,
`printf`, the scheduler, and the keyboard queue.

Code that updates state in place is modelled by classes and arrays that are updated in place, and every method is
tied to a specification function or an abstract state; the theorems are then proved about those.

* **Words.** C's unsigned words are naturals below 2^32 or 2^64; `&`, `|`, `~`, `<<`, `>>` are defined bit by bit in
  `Bits.dfy`, wrap-around and truncation are written out.
* **Memory.** Physical memory is an array of frames of 512 64-bit words. The page tables lie in it, so editing a table
  edits memory. The frame allocator's bitmap is an array of 32-bit words (`Pmm.dfy`, `Boot.dfy`). CR3 is a variable.
* **Page tables** (`Paging`, `PageEntries`, `Mapping`, `Descent`, `Exhaustion`, `Ownership`, `Access`, `Vmm`; 4-level
  paging, Intel SDM volume 3A, section 4.5). The abstract meaning of the tables is `Translate`, a map from the 36-bit
  page number to the entry that maps it. The invariant `Sound` says that the table frames form a tree below the root,
  each reachable by one route, none of them free in the bitmap. `Owns` says which pages have a data frame of their
  own, and `UserMay` which pages a program may read and write.
* **KEX** (`KexFormat`, `KexLinker`, `KexImage`, `KexLoader`, `KexProgram`, `Kernel`). The meaning of an executable is
  the bytes a process sees through the page tables.
* **Video** (`VideoFormat`, `VideoEncoder`, `VideoPlayer`, `Memcpy`, `Renderer`, `VideoPipeline`). The meaning of a file
  is its stream of pixels; the meaning of a screen is a picture.
* **Heap** (`HeapBlocks`, `Heap`), **ramdisk** (`Tar`), **printf** (`Printf`), **scheduler** (`Scheduling`, `Process`),
  **keyboard** (`Keyboard`).

Where the code and its comments or documentation differ, the model follows the code:

* `kmalloc` is described as a best-fit allocator and takes the first block that fits.
* `pmm_initialize` fills `max_blocks / 8` bytes of the bitmap, so up to seven bits keep what the memory held, and the boot code
  reserves that many bytes for it, which misses the block where the last word begins for some memory sizes.
  `FreeIsUsableExactly` and `StorageIsKeptExactly` say when a run of the allocator hands out memory that is not usable, or
  the bitmap's own storage; `StrayBlock` and `StorageHandedOut` give memory maps where it does.
* `vmm_map_page` does not check what `pmm_alloc_block` returns, so without free frames it takes frame 0 for a page table.
  `MapsExactly` says how often that still gives a map update on a tree of tables: once, unless frame 0 is a table already.
* `fast_memcpy` returns the address behind the words it copied, not its destination.
* `get_size` reads an 11-digit field into 32 bits, and the step to the next header is computed in 32 bits; `StepExactly`
  says for which contents the step is right.
* A file name of exactly 100 characters, which the ustar format allows, has no terminator in its field, and comparing it goes
  on into the mode field: looking it up misses the file, and looking it up with the mode appended finds it. `LookupExactly`
  says that these are the only wrong lookups, and `FullNameMisleads` gives an archive with both.
* The draw call reads whole bytes per row where the player packs pixels without padding; they agree exactly when the
  width is a multiple of 8 (`PackingAgrees`).

## Model

| member | source | states |
|---|---|---|
| Pmm.FrameAllocator.MmapSet | kernel/kernel/pmm.c:13-15 | the set of marked blocks gains exactly this one |
| Pmm.FrameAllocator.MmapUnset | kernel/kernel/pmm.c:17-19 | the set of marked blocks loses exactly this one |
| Pmm.FrameAllocator.MmapTest | kernel/kernel/pmm.c:21-23 | tells whether the block is marked |
| Pmm.FrameAllocator.Initialize | kernel/kernel/pmm.c:25-34 | which bits are marked afterwards, including the trailing ones that keep what the memory held |
| Pmm.FrameAllocator.InitRegion | kernel/kernel/pmm.c:36-46 | frees exactly the region's blocks, except block 0, with the counter's wrap-around |
| Pmm.FrameAllocator.DeinitRegion | kernel/kernel/pmm.c:48-56 | marks exactly the blocks the size rounds up to |
| Pmm.FrameAllocator.AllocBlock | kernel/kernel/pmm.c:58-68 | the lowest free block is handed out and marked; 0 exactly when none is free, and then nothing changes |
| Pmm.FrameAllocator.FreeBlock | kernel/kernel/pmm.c:70-74 | exactly that block becomes free |
| Pmm.HistoryCounts | kernel/kernel/pmm.c:36-74 | over every run of allocations and releases the counter stays the number of used blocks less the same difference, block 0 stays used, and 0 is returned exactly when no block is free |
| Pmm.HandsOutExactly | kernel/kernel/pmm.c:58-74 | over all runs that release only what they were given, the blocks handed out stay in a set exactly when the free blocks of the first state lie in it |
| Pmm.StaysWithin | kernel/kernel/pmm.c:58-74 | at every point of such a run, the blocks in use by the callers and the free ones are among those free at first |
| Boot.ScanMap | kernel/kernel/kernel.c:67-81 | memory ends where the highest usable region ends; the bitmap goes to the first usable region of 1 MiB that does not begin at 0 |
| Boot.MemSizeIsHighest | kernel/kernel/kernel.c:70-75 | no usable region ends beyond the memory size, and one ends there |
| Boot.BitmapIsFirst | kernel/kernel/kernel.c:77-79 | no earlier region with room begins anywhere but at 0, where the scan takes it for none |
| Boot.SetUpMemory | kernel/kernel/kernel.c:66-93 | which blocks are free after the boot code, for every memory map and every former content of the bitmap |
| Boot.FillBitmap | kernel/kernel/kernel.c:83-93 | the part of the boot code after the first scan: which blocks are free, and the counter |
| Boot.BootKeepsBack | kernel/kernel/kernel.c:83-93 | after boot, no run of the allocator ever hands out a block that was not free then: not block 0, and none of the reserved ones |
| Boot.BlockInsideRegion | kernel/kernel/kernel.c:85-90 | a usable block lies wholly inside a usable region |
| Boot.FreeIsUsableExactly | kernel/kernel/pmm.c:32 | every run after boot hands out usable memory only, exactly when the bits the fill did not reach were set or belong to usable or reserved blocks |
| Boot.RunsStayInRegions | kernel/kernel/kernel.c:83-93 | when the number of blocks is a multiple of 8, every frame that any run hands out lies inside one usable region |
| Boot.StrayBlock | kernel/kernel/pmm.c:32 | a memory map where a run hands out a block in the gap between two usable regions |
| Boot.StorageIsReservedExactly | kernel/kernel/kernel.c:92-93 | the bitmap's storage is reserved exactly when the number of blocks modulo 32768 is 0 or at least 8 |
| Boot.StorageIsKeptExactly | kernel/kernel/kernel.c:92-93 | when the bitmap lies in usable memory, no run hands out a frame of its storage, exactly for these numbers of blocks |
| Boot.StorageHandedOut | kernel/kernel/kernel.c:92-93 | a memory map where the very first block handed out is the last one of the bitmap |
| Boot.BootCounts | kernel/kernel/pmm.c:36-56 | after boot the counter is the number of used blocks, less one if block 0 was in a usable region |
| PageEntries.ShiftedIndex | kernel/arch/x86_64/vmm.c:38-41 | the shifts and masks of an address are the four indices of its page |
| PageEntries.LeafValue | kernel/arch/x86_64/vmm.c:65 | the entry built from a physical address and flags refers to the address's frame, with the flags and the present bit |
| PageEntries.MaskFrame | kernel/arch/x86_64/vmm.c:49 | the address mask extracts the frame that an entry refers to |
| Paging.AddTableKeepsTree | kernel/arch/x86_64/vmm.c:43-47 | hooking a zeroed free frame into an empty slot keeps the tables a tree with every table reachable once |
| Paging.AddTableKeepsWalks | kernel/arch/x86_64/vmm.c:43-47 | and changes the translation of no page |
| Paging.RouteUnique | kernel/arch/x86_64/vmm.c:35-68 | no table is reached by two routes |
| Paging.SetLeafKeepsTree | kernel/arch/x86_64/vmm.c:64-65 | writing the entry keeps the tree |
| Paging.SetLeafMaps | kernel/arch/x86_64/vmm.c:64-65 | writing the entry maps exactly that page to it, and every other page translates as before |
| Mapping.FillGrows | kernel/arch/x86_64/vmm.c:43-47 | one on-demand table opens exactly one route, costs one frame, and translates no page differently |
| Descent.DescendGrows | kernel/arch/x86_64/vmm.c:43-61 | with a frame for every missing table the three levels together open exactly the missing routes, whichever of them had to be allocated, and spend exactly those frames |
| Descent.DescendsIntact | kernel/arch/x86_64/vmm.c:43-61 | with one frame less, frame 0 makes up for it: the tables are still a tree that leads to the page table, and no page translates differently |
| Descent.DescendsBroken | kernel/arch/x86_64/vmm.c:43-61 | with fewer than that, a slot refers to frame 0 that is not the one it was hung into, or the root itself was overwritten |
| Descent.StepsMap | kernel/arch/x86_64/vmm.c:35-68 | with a frame for every missing table the steps are the map update, and the frames spent are those |
| Mapping.LeafOnGrown | kernel/arch/x86_64/vmm.c:63-65 | the finished map update on the tables so grown |
| Mapping.RootedTranslates | kernel/arch/x86_64/vmm.c:20-30 | in the new address space the lower half is unmapped and the upper half translates as before, and the invariant holds |
| Exhaustion.MapsExactly | kernel/arch/x86_64/vmm.c:35-68 | for every state: the steps leave a map update and a tree of tables, each where the steps hung it, exactly when the missing tables are at most the free frames, and one more if frame 0 is neither a table nor free |
| Exhaustion.NotMapped | kernel/arch/x86_64/vmm.c:43-65 | with no free frame and an empty root slot, frame 0 is cleared for each of the three tables, and the page is left unmapped |
| Exhaustion.GibibyteLost | kernel/arch/x86_64/vmm.c:43-65 | a memory of two frames where this happens |
| Exhaustion.SelfReference | kernel/arch/x86_64/vmm.c:50-65 | with no free frame and two tables missing the page is mapped, but frame 0 refers to itself and the tables are no tree in any arrangement |
| Vmm.Indices | kernel/arch/x86_64/vmm.c:38-41 | the four indices are those of the address's page |
| Vmm.AddressSpace.HookTable | kernel/arch/x86_64/vmm.c:44-46 | clears the new table, then stores the slot that refers to it |
| Vmm.AddressSpace.FillSlot | kernel/arch/x86_64/vmm.c:43-47 | an empty slot gets the lowest free frame as its table, or frame 0 when none is free |
| Vmm.AddressSpace.NextTable | kernel/arch/x86_64/vmm.c:43-49 | refines one step down: the next table on the path, allocated only if the slot is empty |
| Vmm.AddressSpace.TablesFor | kernel/arch/x86_64/vmm.c:43-63 | refines the way down to the page table, for any number of free frames, and never leaves memory |
| Vmm.AddressSpace.MapPage | kernel/arch/x86_64/vmm.c:35-68 | refines the steps, for any number of free frames; the entry has the address's frame number, and the low 12 bits of the flags with the present bit set; with a frame for every missing table it is a map update: the page translates to that entry, every other page as before, and the tree and bitmap invariant holds again |
| Vmm.AddressSpace.CopyUpperHalf | kernel/arch/x86_64/vmm.c:23-28 | the new root has zeros in its lower half and the old entries in its upper half |
| Vmm.AddressSpace.Initialize | kernel/arch/x86_64/vmm.c:20-33 | switches to a free frame as such a root |
| Vmm.AddressSpace.TakeFrame | kernel/kernel/pmm.c:58-68 | a block taken while one is free is a frame that was free, and only the free set changes |
| Vmm.AddressSpace.AllocAndMap | kernel/kernel/kernel.c:98-100 | one allocate-then-map step hands out a free frame and maps the page to it |
| Vmm.AddressSpace.MapFresh | kernel/kernel/kernel.c:98-100 | the page gets a frame of its own, and the frames still needed shrink by exactly what was spent |
| Vmm.AddressSpace.MapFreshRange | kernel/kernel/kex.c:30-33 | every page of the range gets a frame of its own; every other page keeps its translation and contents |
| Vmm.AddressSpace.MapVideo | kernel/kernel/kernel.c:112-122 | virtual address 0x80000000 + offset + k translates to the k-th byte of the file, for every k below its size, and the flags of these pages are 7 |
| Vmm.AddressSpace.MapFrames | kernel/kernel/kernel.c:120-122 | consecutive pages map to consecutive frames, and nothing else changes |
| Vmm.AddressSpace.StoreBytes | libc/string/memcpy.c:4-12 | storing through the page tables changes exactly the addressed bytes of the pages concerned, and no translation |
| Ownership.StepOwns | kernel/kernel/kernel.c:98-100 | after a step, pages with frames of their own still have them, with their contents |
| Ownership.RunOwns | kernel/kernel/kex.c:24-52 | after any run of such steps every page mapped in it has a frame of its own |
| Ownership.RunSeparates | kernel/kernel/kex.c:24-52 | after any run, different pages lie on different frames, and none of these frames is a page table |
| Ownership.NothingHandedTwice | kernel/kernel/kex.c:24-52 | no frame is handed out twice in a run |
| Ownership.StepMeetsMissing | kernel/arch/x86_64/vmm.c:43-61 | a step spends one frame for the page and exactly one for each table that was missing |
| UserBytes.RangeTranslates | kernel/kernel/kernel.c:113-122 | where each byte of a range of pages mapped to consecutive frames lies |
| UserBytes.PokeStores | kernel/kernel/kex.c:36-43 | a store to a page with a frame of its own changes that byte and no other page |
| Access.StepsOpen | kernel/arch/x86_64/vmm.c:43-65 | mapping a page opens every table it adds to user mode and moves no other |
| Access.RootedUpper | kernel/arch/x86_64/vmm.c:20-30 | in the new address space no table translates a page of the lower half |
| Access.OpensToUser | kernel/arch/x86_64/vmm.c:35-68 | so a page of the lower half mapped with flags 7 is present, writable and a user page in the entries of all four levels |
| Access.ClosedToUser | kernel/kernel/kernel.c:98-100 | a page mapped with flags 3 is closed to programs, whatever the tables above it grant |
| KexFormat.HeaderFields | kernel/include/kernel/kex.h:20-31 | every field of the header reads back at its place: magic, version, architecture, number of commands, page size, entry, offset and size of the commands |
| KexFormat.SegmentFields | kernel/include/kernel/kex.h:38-48 | the fields of a segment command that the loader reads are those the linker wrote |
| KexFormat.OtherSegmentFields | kernel/include/kernel/kex.h:38-48 | and so are its index, permissions, alignment and reserved bytes |
| KexFormat.IntegrityFields | kernel/include/kernel/kex.h:71-74 | type, size and hash of the integrity command |
| KexFormat.MeetsAll | kernel/kernel/kex.c:22-50 | the walk by the commands' sizes loads every command of type 1 among the first `command_count`, with its fields read at their offsets, whatever other commands stand between |
| KexFormat.MeetsOnly | kernel/kernel/kex.c:22-50 | and it loads nothing that is not such a command |
| Bytes.FieldBytes | kernel/include/kernel/kex.h:20-31 | a 4-byte field has its lowest byte first |
| KexLinker.LayoutIsSound | kex-ld/kex-ld.cpp:80-104 | for any segments, data ranges are page-aligned, behind the command table, in order and without overlap |
| KexLinker.WritePadding | kex-ld/kex-ld.cpp:9-15 | zeros up to the target, never backwards |
| KexLinker.PrepareSegments | kex-ld/kex-ld.cpp:80-104 | the commands describe the segments with the layout's offsets |
| KexLinker.WriteCommands | kex-ld/kex-ld.cpp:106-116 | header and commands are in place |
| KexLinker.WriteData | kex-ld/kex-ld.cpp:118-127 | each segment's bytes are at its offset; the padding never has to move backwards |
| KexLinker.Patch | kex-ld/kex-ld.cpp:136-139 | changes no byte outside the integrity command, so not the hashed prefix and no data |
| KexLinker.Link | kex-ld/kex-ld.cpp:64-143 | header, commands, data, and the hash of everything before the integrity command |
| KexLinker.LinkedHeader | kex-ld/kex-ld.cpp:64-78 | the header of every linked file, field by field |
| KexLinker.PermissionsSwap | kex-ld/kex-ld.cpp:89-92 | readable is 4 in ELF and 1 in KEX, executable 1 and 4, writable 2 in both |
| KexLinker.LinkedCommand | kex-ld/kex-ld.cpp:83-97 | command i of every linked file, field by field: type, size, index, permissions from the ELF flags, address, sizes, alignment |
| KexLinker.LinkedData | kex-ld/kex-ld.cpp:99-127 | its offset field is 0 for a segment without bytes, and otherwise page-aligned and where the ELF segment's bytes are |
| KexLinker.LinkedHash | kex-ld/kex-ld.cpp:110-139 | the last command holds the hash of all bytes before it |
| KexLinker.LinkedLoads | kernel/kernel/kex.c:22-50 | walking the commands by their sizes meets exactly the linked segments |
| KexImage.CoveredExactly | kernel/kernel/kex.c:30-33 | the pages mapped for a segment contain all its bytes exactly when this arithmetic condition on its address and size holds |
| KexImage.ZeroThenCopy | kernel/kernel/kex.c:35-43 | zeroing and copying leave the file bytes followed by zeros |
| KexImage.HoldsOn | kernel/kernel/kex.c:24-52 | a loaded segment survives whatever keeps its pages |
| KexLoader.FillSegment | kernel/kernel/kex.c:35-43 | the segment's image is in place, other pages keep their contents |
| KexLoader.LoadSegment | kernel/kernel/kex.c:27-43 | one segment is mapped, with flags 7, and filled; all other pages are kept |
| KexLoader.LoadCommand | kernel/kernel/kex.c:24-50 | one round of the command walk, also for commands that are skipped |
| KexLoader.LoadCommands | kernel/kernel/kex.c:22-53 | the whole walk and the stack page: every segment is in place and accessible, the stack has flags 7, and all other pages are kept |
| KexLoader.LoadKexAndRun | kernel/kernel/kex.c:11-56 | wrong magic: nothing changes; otherwise every segment's image and the stack are in place on pages with flags 7, which programs may read and write in a new address space; other pages are kept, and the entry point is the header's |
| KexLoader.ProgramOpen | kernel/kernel/kex.c:30-53 | the program may read and write all its segments and its stack, by the entries of all four levels |
| KexProgram.LinkedImage | kernel/kernel/kex.c:35-43 | the image of a linked command is the ELF segment's: its bytes, then zeros up to its memory size |
| KexProgram.LinkedStarts | kernel/kernel/kex.c:14-22 | a linked file has the right magic, complete commands, and the ELF entry point |
| KexProgram.LinkAndLoad | kernel/kernel/kex.c:11-56 | linking and then loading preserves the program image of every list of page-disjoint segments, read through the page tables, and its entry point, and opens its pages to the program |
| Kernel.Start | kernel/kernel/kernel.c:95-137 | after the boot sequence heap, video, program and stack are all in place at once in the new address space; the program may use the pages of the last three, and none of the heap's |
| Kernel.WhoMay | kernel/kernel/kernel.c:98-122 | programs may use the video's pages and none of the heap's |
| Kernel.NewSpace | kernel/kernel/kernel.c:95 | the new address space maps nothing in its lower half and has no large page where the heap goes |
| Kernel.MapHeap | kernel/kernel/kernel.c:95-100 | the heap's 4096 pages have frames of their own and flags 3, and the lower half is free of large pages |
| Kernel.HeapSurvivesLoading | kernel/kernel/kernel.c:98-137 | loading the program takes no page from the heap |
| Kernel.VideoSurvives | kernel/kernel/kernel.c:120-137 | loading the program keeps the mapping of the video |
| VideoFormat.RunByteBits | misc/index.js:111 | the byte written for a run holds its colour above its length |
| VideoFormat.RunByteParts | userland/init/init.c:74-76 | and the player takes the same two out of it |
| VideoFormat.DecodeEncode | misc/index.js:87-122 | decoding the runs gives back the pixels, for every stream of pixels |
| VideoFormat.EncodedLength | misc/index.js:104-122 | the number of bytes is the sum over the maximal runs of their length over 127, rounded up |
| VideoFormat.EncodeIsShortest | misc/index.js:104-122 | no byte stream that decodes to the same pixels is shorter |
| VideoFormat.Encode | misc/index.js:86-122 | never more than one byte per pixel, so the output fits its buffer |
| VideoFormat.HeaderReadsBack | userland/init/init.c:41-43 | the player reads from the header what the converter wrote |
| VideoEncoder.BrightSum | misc/index.js:103 | a pixel is bright exactly when its channels sum to at least 384 |
| VideoEncoder.StreamAt | misc/index.js:94-101 | where pixel i of frame f is in the stream of all pixels |
| VideoEncoder.StreamSums | misc/index.js:94-103 | pixel i of frame f is bright in the stream exactly when its red, green and blue bytes sum to at least 384 |
| VideoEncoder.CodedSplits | misc/index.js:104-114 | after every pixel, the bytes written followed by the encoding of the open run and of the rest encode everything |
| VideoEncoder.ProcessFrame | misc/index.js:97-115 | the inner loop, with runs that cross frames, refines one encoding step per pixel and stays inside the buffer |
| VideoEncoder.ProcessFrames | misc/index.js:85-122 | the run bytes are the encoding of all frames' thresholded pixels |
| VideoEncoder.Process | misc/index.js:82-141 | the file is the header, byte by byte, and runs that decode to the thresholded pixels of all frames; it fails exactly when a header field does not fit |
| VideoPlayer.PixelInRun | userland/init/init.c:73-77 | every decoded pixel has the colour of the run byte it comes from |
| VideoPlayer.ReadsExactly | userland/init/init.c:72-93 | when the pixels end with a byte, the player has read exactly up to it and no run is left |
| VideoPlayer.DrawRun | userland/init/init.c:84-89 | sets exactly the bits of these pixels, lowest bit first |
| VideoPlayer.DecodeFrame | userland/init/init.c:67-93 | the buffer packs exactly the next frame's pixels, spare bits zero; the run left over is carried on |
| VideoPlayer.PlayOnce | userland/init/init.c:58-104 | every frame shown packs its part of the decoded stream, and no byte is read that is not needed |
| VideoPlayer.FindVideo | userland/init/init.c:25-34 | the first occurrence of the magic number that starts in the first 4096 bytes, or none |
| VideoPlayer.Start | userland/init/init.c:24-104 | not found; too large, exactly when the header's width and height need more than 65536 bytes; or played: what is shown, and how far the file was read |
| VideoPipeline.FoundExactly | userland/init/init.c:28-34 | the search finds a video that lies in memory exactly when it starts in the first page and nothing before it looks like one |
| VideoPipeline.HiddenVideo | userland/init/init.c:28-34 | a video behind four bytes that look like one, which are found instead |
| VideoPipeline.AllRunsRead | userland/init/init.c:72-93 | after the last frame of a converted video all its bytes are read and no run is left |
| VideoPipeline.PlaysWhatWasConverted | userland/init/init.c:58-96 | the buffer of every frame packs the thresholded pixels of that frame |
| VideoPipeline.ConvertAndPlay | userland/init/init.c:24-104 | converting and then playing: bit i of the buffer of frame f is set exactly when the channels of that pixel sum to at least 384, spare bits are clear, and exactly the bytes written are read, for all videos whose frames fit the buffer |
| VideoPipeline.PackingAgrees | kernel/kernel/syscall.c:47-57 | player and draw call agree on the place of every pixel exactly when the width is a multiple of 8 or there are no rows |
| VideoPipeline.ScreenShows | kernel/kernel/syscall.c:49-69 | each visible cell is white or black as the thresholded pixel of the converted frame is |
| VideoPipeline.PaintsPicture | kernel/kernel/syscall.c:49-70 | painting a buffer that packs a frame, in whole bytes per row, gives every byte of the screen as the ideal picture of that frame has it |
| VideoPipeline.DrawAll | userland/init/init.c:65-103 | after all frames video memory is the last frame over what was there at first |
| VideoPipeline.Watch | userland/init/init.c:24-104 | from RGB frames to video memory: after converting, finding, decoding and drawing, the four bytes of each visible cell in the middle of the screen are those of white or black as the channels of the last frame's pixel sum to 384 or not, and every other byte is as before |
| Memcpy.Copy | libc/string/memcpy.c:4-12 | the destination range is the source range, all else unchanged |
| Memcpy.FastCopy | libc/string/memcpy.c:14-31 | the same for every count, with words and a tail; and the address it returns |
| Renderer.StartIsFloor | kernel/kernel/syscall.c:44-45 | the wrapped, halved and truncated difference is floor division, also when the frame is larger than the screen |
| Renderer.PaintOver | kernel/kernel/syscall.c:49-70 | a frame painted over one of the same size leaves nothing of it |
| Renderer.LastFrameShows | kernel/kernel/syscall.c:27-80 | any number of draws of one size leave the last frame over the first background |
| Renderer.CellShows | kernel/kernel/syscall.c:49-69 | for any placement, the cell of a pixel inside it shows the frame's bit |
| Renderer.Screen.PaintedPixel | kernel/kernel/syscall.c:44-69 | the painting has pixel (x, y) at row (height - h) / 2 + y and column (width - w) / 2 + x, white for a set bit and black for a clear one |
| Renderer.Screen.PaintedOutside | kernel/kernel/syscall.c:44-69 | and keeps every cell outside that rectangle |
| Renderer.RowCopies | kernel/kernel/syscall.c:72-79 | copying the dirty part of a row brings video memory to the picture after that row |
| Renderer.Screen.Prepare | kernel/kernel/syscall.c:37-42 | the first draw starts from a black back buffer and screen |
| Renderer.Screen.PaintByte | kernel/kernel/syscall.c:57-66 | eight cells, one per bit, lowest bit first |
| Renderer.Screen.PaintRows | kernel/kernel/syscall.c:49-70 | the back buffer is the frame painted over what it held, rows outside the screen clipped |
| Renderer.Screen.CopyRows | kernel/kernel/syscall.c:72-79 | afterwards video memory equals the back buffer everywhere |
| Renderer.Screen.Draw | kernel/kernel/syscall.c:27-81 | video memory equals the back buffer; each pixel on the screen is at its centred cell with all four bytes right, and every cell outside the frame is as before |
| HeapBlocks.PayloadsApart | kernel/kernel/kheap.c:20-45 | usable bytes of different blocks never overlap |
| HeapBlocks.SizesAddUp | kernel/kernel/kheap.c:20-59 | the sizes of the blocks sum to the heap |
| HeapBlocks.TakeTiles | kernel/kernel/kheap.c:25-38 | taking a block keeps the tiling, also with a wrapped size if the block is taken whole |
| HeapBlocks.TakeTilesExactly | kernel/kernel/kheap.c:21-38 | taking the block that serves a request keeps the tiling exactly when the size did not wrap below a header, or the block is taken whole |
| HeapBlocks.ReleaseTiles | kernel/kernel/kheap.c:47-59 | freeing a block keeps the tiling |
| HeapBlocks.AlwaysTiles | kernel/kernel/kheap.c:20-59 | after any valid sequence of calls the blocks tile the heap, without gap or overlap, and the sizes sum to the total |
| HeapBlocks.AlwaysLive | kernel/kernel/kheap.c:20-59 | a block in use keeps its place and size through any calls that do not free it |
| HeapBlocks.ReleaseUndoesTake | kernel/kernel/kheap.c:25-58 | freeing at once undoes an allocation exactly when the block was split or the next block is in use |
| HeapBlocks.NestedRestores | kernel/kernel/kheap.c:20-59 | well-nested programs restore every heap whose free space is at its end |
| HeapBlocks.NestedRestoresFresh | kernel/kernel/kheap.c:13-59 | in particular the single block of a fresh heap |
| HeapBlocks.RoomExactly | kernel/kernel/kheap.c:21-25 | a block handed out has room for the request exactly when the size plus the header did not wrap |
| HeapBlocks.WrapBreaksTiling | kernel/kernel/kheap.c:21-38 | a request for which the tiling is lost, and the overlapping blocks it leaves |
| Heap.OtherPayloadsKept | kernel/kernel/kheap.c:20-59 | a call that writes inside one block changes no byte of another block's payload |
| Heap.KernelHeap.HeadersInMemory | kernel/kernel/kheap.c:5-9 | next pointer, size and free mark of every block lie in memory at the offsets of the struct |
| Heap.KernelHeap.constructor | kernel/kernel/kheap.c:13-18 | one free block over the whole range |
| Heap.KernelHeap.FindFit | kernel/kernel/kheap.c:23-25 | the walk in memory ends at the first block that is free and large enough, or with null |
| Heap.KernelHeap.Kmalloc | kernel/kernel/kheap.c:20-45 | for every size: null exactly when no block is free and at least as large as the size and a header, modulo 2^64; otherwise the first such block is split or taken whole, and only its bytes changed; the heap stays valid exactly when the tiling does |
| Heap.KernelHeap.SplitBlock | kernel/kernel/kheap.c:28-36 | the two headers of a split block |
| Heap.KernelHeap.Kfree | kernel/kernel/kheap.c:47-59 | nothing for null; otherwise the block is free and has absorbed the next one exactly if that was free, and only its header changed |
| Tar.GetSize | kernel/kernel/fs.c:28-34 | the 11-digit octal value modulo 2^32, for any characters |
| Tar.OctalRoundTrip | kernel/kernel/fs.c:28-34 | the value of a number's octal digits is the number |
| Tar.ThreeBits | kernel/kernel/fs.c:32 | the weight of an octal digit is a power of eight |
| Tar.StepExactly | kernel/kernel/fs.c:47-48 | the step to the next header is right exactly for contents of at most 2^32 - 1024 bytes |
| Tar.StandsStill | kernel/kernel/fs.c:47-48 | for the next larger ones the walk stands still |
| Tar.ComparesByName | kernel/kernel/fs.c:83 | for every target, what it must be to compare equal to a stored name: the name, or a full name and what follows it |
| Tar.LookupByName | kernel/kernel/fs.c:78-91 | a target shorter than 100 bytes selects the first entry of that name, or none exactly when there is none |
| Tar.LookupExactly | kernel/kernel/fs.c:78-91 | for every target the lookup is right exactly when no name of 100 bytes is the target or compares equal to it |
| Tar.OneFullName | kernel/kernel/fs.c:78-91 | in an archive of one file with such a name, the name is not found, and the name with the mode field appended is |
| Tar.FullNameMisleads | kernel/kernel/fs.c:78-91 | a concrete archive with both wrong lookups |
| Tar.ListsName | kernel/kernel/fs.c:44-45 | the listing shows an entry's name and size |
| Tar.FileSystem.Init | kernel/kernel/fs.c:36-50 | the walk terminates and lists exactly the archive's entries, in order |
| Tar.FileSystem.GetFile | kernel/kernel/fs.c:78-91 | offset and size of the content of the first entry that compares equal, or null |
| Tar.FileSystem.Cat | kernel/kernel/fs.c:52-76 | emits exactly that entry's bytes |
| Printf.NumberReadsBack | libc/stdio/printf.c:59-93 | the text of %d reads back as the argument, that of %x as its 32 bits |
| Printf.DigitTable | libc/stdio/printf.c:81-85 | the digits in their order |
| Printf.NumberIsShort | libc/stdio/printf.c:64-87 | no leading zeros, and far fewer characters than the buffer holds |
| Printf.PiecesPrint | libc/stdio/printf.c:21-108 | the pieces together print what the format means when it is read character by character |
| Printf.OneConversion | libc/stdio/printf.c:24-104 | %% is a percent sign, %c the character, %s the string, %d a text that denotes the number, and %x one that denotes its 32 bits |
| Printf.WithinLimit | libc/stdio/printf.c:21-108 | output up to INT_MAX characters is printed whole and its length returned |
| Printf.BeyondLimit | libc/stdio/printf.c:23-31 | longer output returns -1 and was cut short before the piece that does not fit |
| Printf.Console.Print | libc/stdio/printf.c:7-13 | prints everything and never fails |
| Printf.Console.PrintNumber | libc/stdio/printf.c:59-93 | prints the sign and the digits, highest first |
| Printf.Console.FillDigits | libc/stdio/printf.c:81-86 | the buffer holds the digits in reverse and never overflows |
| Printf.Console.PrintPiece | libc/stdio/printf.c:24-104 | one round of the loop prints the first piece the format asks for: literal text, %%, %c, %s, a number, or the tail from an unknown conversion on |
| Printf.Console.Printf | libc/stdio/printf.c:15-109 | prints what the format means and returns its length, or -1 and a prefix if that is more than INT_MAX |
| Scheduling.RunStaysSound | kernel/kernel/process.c:25-70 | after any run the ring holds every created task once, with distinct ids |
| Scheduling.KeepsStackPointers | kernel/kernel/process.c:58-70 | every task's stack pointer is the one it was last suspended or created with |
| Scheduling.ResumesAsSuspended | kernel/kernel/process.c:64-70 | so is the one a tick returns, for the task it resumes |
| Scheduling.TickComesNearer | kernel/kernel/process.c:67-68 | each tick lowers a waiting task's ring distance by one |
| Scheduling.CreationDelays | kernel/kernel/process.c:29-30 | a creation raises it by one exactly when the insertion point is on the way, and otherwise not |
| Scheduling.RunsInTime | kernel/kernel/process.c:25-76 | no task starves: it runs within as many ticks as its distance and the number of creations |
| Process.PushFrame | kernel/kernel/process.c:33-58 | popping the new stack in the interrupt return's order gives the thread's initial registers |
| Process.Multitasking.Initialize | kernel/kernel/process.c:14-23 | a ring of one task |
| Process.Multitasking.CreateKernelThread | kernel/kernel/process.c:25-61 | links the new task behind the list head, which refines a creation step, and leaves the twenty words of its first stack frame |
| Process.Multitasking.Schedule | kernel/kernel/process.c:64-70 | refines a tick, and does nothing before initialisation |
| Process.Multitasking.Irq0 | kernel/kernel/process.c:72-76 | the same, with 10 ms more uptime |
| Keyboard.DropsExactly | kernel/arch/x86_64/tty.c:31-36 | a push is dropped exactly when 255 characters are pending |
| Keyboard.ReturnsInOrder | kernel/arch/x86_64/tty.c:31-45 | under any interleaving the characters returned are a prefix of those accepted, in order, with at most 255 pending |
| Keyboard.Queue.KeyboardPush | kernel/arch/x86_64/tty.c:31-36 | refines a push: accepted unless 255 characters are pending |
| Keyboard.Queue.TestEmpty | kernel/arch/x86_64/tty.c:39-41 | refines the reader's test: empty exactly when all that was accepted has been returned |
| Keyboard.Queue.LoadChar | kernel/arch/x86_64/tty.c:42 | refines the reader's load: the oldest character accepted and not yet returned |
| Keyboard.Queue.AdvanceAndReturn | kernel/arch/x86_64/tty.c:43-44 | returns the oldest character accepted and not yet returned |

## Left out

- Vmm.AddressSpace.MapPage: requires that no 1 GiB or 2 MiB entry is on the walked path, since the code would take its frame for a table.
- Vmm.AddressSpace.AllocAndMap: the case that a frame is missing for the page or one of its tables is left to MapPage and MapsExactly; the runs of Ownership and the loader are those with enough frames.
- Boot.SetUpMemory: region ends are taken without 64-bit wrap-around, and block numbers below 2^31, since the code keeps them in an int.
- KexLoader.LoadKexAndRun: requires segments in user memory that cover their pages, share none with each other or the stack, and have no more file bytes than memory bytes, as the linker script arranges; the code checks none of it.
- Heap.KernelHeap.Kmalloc: for a size that wraps and splits its block, states that the list is no longer valid and which bytes may have changed, but not what they hold. Sequences of calls (AlwaysTiles) are those without such sizes.
- Renderer.Screen.Draw: requires a frame no wider than the screen and a pitch that holds a row, and takes the allocation of the back buffer to succeed.
- VideoPipeline.Watch: requires a width that is a multiple of 8, since otherwise player and draw call disagree (PackingAgrees), no wider than the screen, and at least one frame.
- Renderer.Screen.Draw: the case without a framebuffer, where the call does nothing, is left out.
- VideoPlayer.Start: models one pass; the endless loop around it starts each pass from the same values. Requires that the width times the height fits an int and that the file is mapped.
- VideoPlayer.Start: the pacing of playback by the clock is not part of this model.
- Printf.Console.Printf: requires arguments that fit the conversions, and that no number alone pushes the count beyond INT_MAX, where the code's counter would overflow; the negation of INT_MIN is taken to wrap.
- Process.Multitasking.CreateKernelThread: atomic with respect to ticks; the code links the task before its stack pointer is set. The ids are not bounded by the width of an int.
- Tar.FileSystem.GetFile: the prefix field that ustar uses for names beyond 100 characters is not read by the code and not modelled.
- The frames of the page-table model and the storage of the bitmap, the ramdisk and the heap's bytes are separate objects, so writes through a physical alias of them are not modelled.
- The stack block of a new thread is modelled as its own array of words.
- SHA-256 is an uninterpreted function; the kernel does not check the hash.
- ELF header parsing, ffmpeg and ffprobe, and file input and output: the models start from the segment list, the RGB frames and the bytes of a file.
- Hardware effects: port I/O, the interrupt controllers, serial output, halting, TLB flushes, control registers other than CR3 as a variable, and the assembly stubs except for the order in which they pop registers.
- Descriptor tables (GDT, IDT, TSS), VGA helpers, scancode tables, boot protocol structures: declarations without logic to prove.
- `strlen`, `strcmp`, `memset`, `memcmp` are used as specified helpers; `strcpy` and `gets` have no caller here.
