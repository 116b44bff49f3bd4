# Verified model of the memory, loading and naming core

The project models, in Dafny 4.11, the parts of the kernel whose correctness rests on state shared
between functions, and proves what they keep.

**Memory.** Physical memory is one store of 64-bit words: free-list links, page-table entries and image
bytes all live in it. `Bits`, `Words` and `Entries` turn the shift-and-mask expressions of the C++ code
into operations on page-table entry fields. `Frames` specifies the frame allocator, `Translation` the
four-level translation and the tree the tables form, `Paging`, `PageMapping` and `BootTables` the walk
(with table creation and large-page splitting), map, unmap and the boot-time identity map. `Runs` puts
them together with the TLB as a state machine. `Regions` says where tables, frames and images lie.
`FrameAllocator` and `AddressSpace` are the same code as the kernel runs it, as classes updated in
place, each method proved to refine its specification. `BootMemory` is the takeover of memory at boot.

**Images.** `Loading`, `Images` and `Loaders` specify mapping an image page by page, undoing it, and
filling it through its virtual addresses, `Overlays` what it then contains; `ImageLoaders`, `PeImages`
and `Pef` are the loaders in place, from the raw bytes of a PE32+ file or PEF container. `TableCost` and
`ImageCost` count the frames a load takes before it starts; `LoadEffects` says what loads do to the
allocator's frames, to pages they fail on and to pages that were loaded before; `LoaderRuns` shows that
loads are runs of the state machine, so that what holds over runs holds with loads among them. `PeFiles`
and `PefFiles` say all this byte by byte: from the bytes at fixed places of a file to the bytes memory
shows.

**Fast forms and formats.** `Crc32` proves the table-driven CRC-32 against the serial division of
section 8 of RFC 1952; `Numbers` the integer reader and printer against a definition of numerals;
`MemoryCopy` the word-wise copy and fill against memmove and memset; `Forks` the on-disk fork chain;
`Calls` the system call hash and dispatch table.

Some natural claims turned out false of the code; the model keeps the code and proves the exact condition:

- A load that runs out of frames does not leave the whole window unmapped: pages it had not reached keep
  the mapping they had before. Which pages these are follows from the free frames and the missing tables
  (`LoadEffects.SectionResidue`, `LoadEffects.ImageResidue`, `PeImages.FileResidue`,
  `LoadEffects.PageStaysMapped`).
- A PE32+ file that asks for base 0 is reported as loaded without its sections at address 0, since copying
  to the null address is refused and nobody looks; it reads as the file says exactly when those sections
  change no byte (`Loaders.ImageFaithful`, `Loaders.SectionLost`, `PeImages.FileFaithful`).
- Loading over pages that were loaded before loses their frames, as nothing is unmapped first; so does every
  further call for a file at base 0, which the loader takes for not loaded (`LoadEffects.SectionLoses`,
  `LoadEffects.LoadedAgain`, `PeImages.FileLoses`).
- The page count of an image ignores where in its first page the image starts; a base without room leaves
  its last bytes on a page that is not mapped (`Images.PagesCover`, `Loaders.SectionNeedsRoom`,
  `Loaders.ImageNeedsRoom`).
- A PE32+ image is mapped wherever its file says, also over the addresses through which the kernel reaches
  its tables and frames (`LoadEffects.ImageKeepsFrames`, `LoadEffects.RootOverwritten`).
- `MmCopyMemory` is not a memmove for backward, aligned copies whose length is no multiple of 8
  (`MemoryCopy.CopyIsMoveExactly`).
- A frame region that starts at address 0 hands out nothing although its counter says it has frames
  (`Frames.AllocSucceeds`, `Frames.NothingFromZero`). hal_init_platform never makes such a region, since
  the lower half of memory goes to the heap (`BootMemory.FreshSucceeds`).
- A PEF section without content passes validation but cannot be loaded (`Pef.PEFLoader.FindSymbol`,
  `Pef.EmptySectionAccepted`).
- Writing over an existing fork with another number of data sectors loses the forks behind it, or, at the
  end of the chain, leaves old data behind it when it shrinks (`Forks.Replaced`, `Forks.MiddleForkLost`).
- A fork whose size is within 511 bytes of 2^64 gets no data sectors (`Forks.Appended`).
- Symbols that differ only in spaces against dollar signs share one section (`Pef.SectionNamesCollide`).

Inputs from outside are parameters: the memory map of the firmware, the file in memory, the catalog a
lookup returns, CR3 and the current user.

## Model

| member | source | states |
|---|---|---|
| `Frames.InitOk` | private/minkernel/HALKit/Generic/HalPhysicalMemory.cpp:36-53 | A region given to the pristine allocator leaves it in balance: nothing handed out, nothing listed, and its frames are exactly those that lie wholly inside the region. |
| `Frames.AllocOk` | private/minkernel/HALKit/Generic/HalPhysicalMemory.cpp:57-86 | Allocation keeps the invariant (live and listed frames partition [base, cursor), the list is the duplicate-free chain through freed frames, `free + used` is the region's size) and hands out a zeroed frame nobody held, or changes nothing and returns 0. |
| `Frames.AllocSucceeds` | private/minkernel/HALKit/Generic/HalPhysicalMemory.cpp:57-86 | A frame comes back if and only if `free` is positive and the cursor is not 0. |
| `Frames.NothingFromZero` | private/minkernel/HALKit/Generic/HalPhysicalMemory.cpp:36-86 | A concrete region that starts at address 0 has two free frames by its counter and never hands one out. |
| `Frames.FreeOk` | private/minkernel/HALKit/Generic/HalPhysicalMemory.cpp:90-107 | Freeing a frame that is handed out keeps the invariant and takes back that frame only, touching no other frame's content. |
| `Frames.FreeThenAlloc` | private/minkernel/HALKit/Generic/HalPhysicalMemory.cpp:57-107 | A freed frame is the next one handed out, and the allocator is then where it was. |
| `FrameAllocator.ClearFrame` | private/minkernel/HALKit/Generic/HalPhysicalMemory.cpp:57-86 | Zeroing byte by byte clears exactly the 512 words of the frame. |
| `FrameAllocator.Allocator.constructor` | private/minkernel/HALKit/Generic/HalPhysicalMemory.cpp:18-31 | The static variables start as the pristine state of the specification. |
| `FrameAllocator.Allocator.Init` | private/minkernel/HALKit/Generic/HalPhysicalMemory.cpp:36-53 | The in-place code with its address masks refines `Frames.Init` from any earlier state; it leaves the allocator in balance when the region holds a frame or the state was pristine. |
| `FrameAllocator.Allocator.AllocFrame` | private/minkernel/HALKit/Generic/HalPhysicalMemory.cpp:57-86 | The in-place code, link read out of word 0 of the head included, refines `Frames.Alloc` and keeps the invariant. |
| `FrameAllocator.Allocator.FreeFrame` | private/minkernel/HALKit/Generic/HalPhysicalMemory.cpp:90-107 | The in-place code refines `Frames.Free` for every argument (0, unaligned, out of range, double frees included) and keeps the invariant unless the frame is already free. |
| `Words.DecodeEncode` | private/minkernel/HALKit/AMD64/HalPagingMgr.cpp:13-29 | The PTE bit fields and the 64-bit word determine each other (word back from fields). |
| `Words.EncodeDecode` | private/minkernel/HALKit/AMD64/HalPagingMgr.cpp:13-29 | The other direction: every 64-bit number is one word's encoding. |
| `Words.WordNumber` | private/minkernel/HALKit/AMD64/HalPagingMgr.cpp:13-29 | Each bit field counts for its place in the 64-bit number: present 1, write 2, user 4, write-through 8, cache-disable 0x10, ..., frame from bit 12, no-execute bit 63. |
| `Words.SplitNumberIsSplitWord` | private/minkernel/HALKit/AMD64/HalPagingMgr.cpp:200-217 | The shift-and-mask expression for an entry of a split leaf has exactly the leaf's P, R/W, U/S, PWT, PCD, G and NX bits, the right frame, and PS only above the last level. |
| `Entries.IndexBits` | private/minkernel/HALKit/AMD64/HalPagingMgr.cpp:103-228 | `(va >> shift) & 0x1FF` is the 9-bit index of that level of the page number. |
| `Entries.Permit` | private/minkernel/HALKit/AMD64/HalPagingMgr.cpp:219-221 | `entry \| 0x7` sets present, write and user and no other field. |
| `Entries.PointTo` | private/minkernel/HALKit/AMD64/HalPagingMgr.cpp:41-65 | `frame \| perm` is the table entry for that frame. |
| `Entries.SplitEntry` | private/minkernel/HALKit/AMD64/HalPagingMgr.cpp:200-217 | The split expression evaluated on the raw number gives the field-level entry. |
| `Entries.IdentityEntry` | private/minkernel/HALKit/AMD64/HalPagingMgr.cpp:67-71 | `(base + i * 2 MiB) \| 0x83` is the large leaf for that address, writable, kernel only. |
| `Translation.ReferencedOnce` | private/minkernel/HALKit/AMD64/HalPagingMgr.cpp:187-225 | Two entries of the tree that point to the same table are the same entry, and none points to the root. |
| `Translation.TreeExact` | private/minkernel/HALKit/AMD64/HalPagingMgr.cpp:187-228 | The tables of the tree under a prefix are exactly those the walk for a page with that prefix reaches. |
| `Translation.RightsBounded` | private/minkernel/HALKit/AMD64/HalPagingMgr.cpp:103-152 | Write, user and execute rights obtained by ANDing all levels never exceed the leaf's own bits. |
| `Translation.LookupByLevels` | private/minkernel/HALKit/AMD64/HalPagingMgr.cpp:103-152 | The translation written out level by level, for 4 KiB, 2 MiB and 1 GiB leaves: nine bits of the page number a level, the frame of the leaf, and each right only where every level grants it. |
| `Paging.SplitMeaning` | private/minkernel/HALKit/AMD64/HalPagingMgr.cpp:200-217 | The 512 entries made from a large leaf translate each of its pages as the leaf did, attributes included. |
| `Paging.DescendOk` | private/minkernel/HALKit/AMD64/HalPagingMgr.cpp:184-225 | One round of the walk - widening, a new table, a split, or running out of frames - keeps the tree sound and every translation's frame and attributes. |
| `Paging.WalkOk` | private/minkernel/HALKit/AMD64/HalPagingMgr.cpp:173-228 | Whole walk, success or failure at any level: the tree stays a tree of handed-out frames, frames in use grow only by tables linked into it, every address keeps its frame and leaf attributes, and failure means no frame was left or no page table exists. |
| `PageMapping.WalkSound` | private/minkernel/HALKit/AMD64/HalPagingMgr.cpp:173-228 | Where leaves carry the real policy, a walk leaves every translation, rights included, exactly as it was - although it widens tables from 0x3 to 0x7 - and the policy still holds. |
| `PageMapping.MapOk` | private/minkernel/HALKit/AMD64/HalPagingMgr.cpp:233-263 | A map succeeds for a frame other than 0 only, and then changes the translation of one 4 KiB page, to that frame and the flags; a failed one changes no translation, and for a frame other than 0 happens only when frames ran out; for frame 0 nothing changes at all; tree, allocator and policy are kept. |
| `PageMapping.MapRights` | private/minkernel/HALKit/AMD64/HalPagingMgr.cpp:233-263 | After a map the page is present, writable, user, executable and cached as the flag bits say, with all levels of the walk taken into account. |
| `PageMapping.EntryWritten` | private/minkernel/HALKit/AMD64/HalPagingMgr.cpp:233-292 | The number in the page's own entry: after a map the frame's address and each flag bit in its place and nothing else, after an unmap 0. |
| `PageMapping.UnmapOk` | private/minkernel/HALKit/AMD64/HalPagingMgr.cpp:278-292 | Unmapping returns the frame and unmaps that page only, exactly when the page is mapped by an entry of its own; otherwise (large leaf, no table) no translation changes. |
| `PageMapping.MapThenUnmap` | private/minkernel/HALKit/AMD64/HalPagingMgr.cpp:233-292 | Round trip: mapping a present page and unmapping it returns the frame and leaves every other page as it was before. |
| `PageMapping.MapKeepsSmall` | private/minkernel/HALKit/AMD64/HalPagingMgr.cpp:233-263 | Mapping one page takes no other page's own entry away. |
| `PageMapping.UnmapKeepsSmall` | private/minkernel/HALKit/AMD64/HalPagingMgr.cpp:278-292 | Unmapping one page takes no other page's own entry away. |
| `BootTables.MapGiBOk` | private/minkernel/HALKit/AMD64/HalPagingMgr.cpp:50-72 | One round of the boot loop: identity for one GiB more, nothing beyond it, tree and policy kept; it fails only for lack of frames. |
| `BootTables.InitTablesOk` | private/minkernel/HALKit/AMD64/HalPagingMgr.cpp:37-76 | For every number of GiB up to 2^18: when the root is not 0, each page below the limit translates to itself, each page above is unmapped, the tables are a sound tree, and the frames used are exactly those tables; failure only when frames run out. |
| `BootTables.InitTablesSucceeds` | private/minkernel/HALKit/AMD64/HalPagingMgr.cpp:37-76 | The tables for n GiB can be built if and only if the cursor is not 0 and at least 1 + n + ceil(n / 512) frames are free, and then just that many are taken. |
| `BootTables.KernelTables` | private/minkernel/HALKit/AMD64/HalPagingMgr.cpp:41-65 | Every entry of the kernel's tables that points to a table ends in the bits 3: present and writable, not for user mode. |
| `Runs.OutsideTables` | private/minkernel/HALKit/AMD64/HalPagingMgr.cpp:103-152 | Memory outside the tables has no say in the tree or in any translation. |
| `Runs.InvalidateCoheres` | private/minkernel/HALKit/AMD64/HalPagingMgr.cpp:256-258 | TLB: if every cached translation agreed with the tables and one page's translation changed, dropping the entries that cover that page restores agreement, however large the cached pages are. |
| `Runs.StepKeepsGood` | private/minkernel/HALKit/AMD64/HalPagingMgr.cpp:173-292 | Each of map, unmap, frame allocation, disciplined free and TLB fill or drop keeps sound tables, policy, balanced allocator and a TLB that agrees - also when a cached large page has just been split. |
| `Runs.RunsStayGood` | private/minkernel/HALKit/AMD64/HalPagingMgr.cpp:173-292 | The same over whole runs, with `free + used` and the region unchanged. |
| `Runs.TablesOwned` | private/minkernel/HALKit/AMD64/HalPagingMgr.cpp:187-225 | Table ownership in every such state: a table any walk reaches is a handed-out, aligned frame inside the region, not on the free list, pointed to by exactly one entry (the root by none). |
| `AddressSpace.FillSplitTable` | private/minkernel/HALKit/AMD64/HalPagingMgr.cpp:206-214 | The loop that fills a split table writes exactly the 512 entries of the specification. |
| `AddressSpace.FillDirectory` | private/minkernel/HALKit/AMD64/HalPagingMgr.cpp:67-71 | The loop that fills a page directory writes exactly the 512 identity leaves. |
| `AddressSpace.Mmu.BuildTable` | private/minkernel/HALKit/AMD64/HalPagingMgr.cpp:196-217 | Allocating and linking a table in place refines `Paging.LinkTable`, splitting included. |
| `AddressSpace.Mmu.DescendEntry` | private/minkernel/HALKit/AMD64/HalPagingMgr.cpp:184-225 | One round of the walk on raw words refines `Paging.Descend`. |
| `AddressSpace.Mmu.WalkPage` | private/minkernel/HALKit/AMD64/HalPagingMgr.cpp:173-228 | The loop refines `Paging.Walk`; the result is the address of the last-level slot, 0 for a null pointer. |
| `AddressSpace.Mmu.MapPageIn` | private/minkernel/HALKit/AMD64/HalPagingMgr.cpp:233-263 | In-place map refines `PageMapping.MapIn` and keeps tables, policy and TLB agreement; null and unaligned frames change nothing, TLB included, and return 56; 0 is returned only when the page then translates to the frame, as its present flag says. |
| `AddressSpace.Mmu.UnmapPage` | private/minkernel/HALKit/AMD64/HalPagingMgr.cpp:278-292 | In-place unmap refines `PageMapping.Unmap` with the same guarantees. |
| `AddressSpace.Mmu.ReadEntry` | private/minkernel/HALKit/AMD64/HalPagingMgr.cpp:103-152 | One level of the read-only walk gives what the translation below that table gives. |
| `AddressSpace.Mmu.GetPageAddr` | private/minkernel/HALKit/AMD64/HalPagingMgr.cpp:103-152 | For every 64-bit address: frame address plus page offset by the four-level translation, 0 when unmapped. |
| `AddressSpace.Mmu.PdptFor` | private/minkernel/HALKit/AMD64/HalPagingMgr.cpp:53-61 | Finding or creating the PDPT refines `BootTables.Pdpt`. |
| `AddressSpace.Mmu.MapGiBAt` | private/minkernel/HALKit/AMD64/HalPagingMgr.cpp:50-72 | One round of the boot loop in place refines `BootTables.MapGiB`. |
| `AddressSpace.Mmu.InitKernelTables` | private/minkernel/HALKit/AMD64/HalPagingMgr.cpp:37-76 | The boot loop by byte limit refines `BootTables.InitTables` for limits up to 2^48, rounded up to a GiB, and yields a valid address space with the identity map. |
| `BootMemory.TrimRegion` | private/minkernel/HALKit/AMD64/HalKernelMain.cpp:93-112 | The kept range lies in the region, avoids the image window, no longer such range exists, and none as long starts lower; a region clear of the window is kept whole. |
| `BootMemory.MapLimit` | private/minkernel/HALKit/AMD64/HalKernelMain.cpp:126-132 | The map limit is the least multiple of 1 GiB that covers memory and 4 GiB. |
| `BootMemory.StartAllocator` | private/minkernel/HALKit/AMD64/HalKernelMain.cpp:114-120 | Heap and frames are disjoint halves; the frame region avoids the window and lies below the limit. |
| `BootMemory.FreshSucceeds` | private/minkernel/HALKit/AMD64/HalKernelMain.cpp:114-138 | On the half the allocator gets, the tables can be built if and only if it holds a root, a directory for every GiB and a PDPT for every 512; its frames never start at address 0. |
| `BootMemory.TakeOverMemory` | private/minkernel/HALKit/AMD64/HalKernelMain.cpp:93-142 | The kernel gets past boot if and only if the memory, in terms of its start and size alone, is enough; then CR3 holds valid tables, the TLB agrees, heap and frames lie apart and clear of the window, and everything outside the window below the limit, every frame of the allocator included, is mapped to itself. |
| `Regions.HomeCoversFrames` | private/minkernel/HALKit/AMD64/HalKernelMain.cpp:97-142 | The identity map outside the window covers the allocator's whole region. |
| `Regions.FramesStayHome` | private/minkernel/HALKit/AMD64/HalPagingMgr.cpp:173-292 | Over any run that leaves the mapping of the region alone, every frame of the allocator, handed out already or not, stays mapped to itself, writable: what all in-place table, link and frame code relies on. |
| `Regions.WindowRunsKeepHome` | private/minkernel/HALKit/AMD64/HalPagingMgr.cpp:173-292 | Runs inside the image window keep the whole identity map outside of it. |
| `TableCost.WalkCost` | private/minkernel/HALKit/AMD64/HalPagingMgr.cpp:173-228 | A walk that may build tables succeeds if and only if the free frames suffice for the places on its way that hold no table; it takes just that many, and then they are there. |
| `TableCost.MapCost` | private/minkernel/HALKit/AMD64/HalPagingMgr.cpp:233-263 | Mapping a page succeeds if and only if the free frames suffice for its missing tables. |
| `ImageCost.BackCost` | private/minkernel/src/PEFCodeMgr.cpp:186-197 | Backing a page succeeds if and only if there is a frame for it and for each table missing on the way. |
| `ImageCost.MapPagesCost` | private/minkernel/src/PEFCodeMgr.cpp:184-198 | The mapping loop succeeds if and only if the free frames suffice for all pages and all missing tables; else it stops at the first page whose cost cannot be paid. |
| `ImageCost.BackImageCost` | private/minkernel/src/PEFCodeMgr.cpp:184-198 | Backing an image from the start: every page on a distinct zeroed frame of its own exactly when the cost can be paid; otherwise exactly the pages that fit had been mapped, and are unmapped again, with all others unchanged and only tables kept. |
| `Loading.UnmapPagesOk` | private/minkernel/src/PEFCodeMgr.cpp:172-178 | Rollback of a partly mapped image unmaps its pages, changes no other translation, and gives back every data frame. |
| `Loading.UnmapPagesList` | private/minkernel/src/PEFCodeMgr.cpp:172-178 | Rollback gives the frames back so that the first page's frame is the next to be handed out, then the second's, and so on: the free list in the order the frames were taken. |
| `Loading.BackPageOk` | private/minkernel/src/PEFCodeMgr.cpp:186-197 | One round of the mapping loop: one page more on a fresh zeroed frame, or the frame given back and nothing mapped. |
| `Images.PagesCover` | private/minkernel/src/PEFCodeMgr.cpp:184-184 | The page count covers every byte of the image if and only if the base leaves room on its first page, which a page-aligned base always does. |
| `Images.PagesLeast` | private/minkernel/src/PEFCodeMgr.cpp:184-184 | The page count is the least number of pages that hold the size. |
| `Images.CopyInOk` | private/minkernel/src/AsciiUtils.cpp:46-60 | Copying through the page tables puts each byte in its backing frame and changes no other byte of the image and no other frame. |
| `Overlays.OverlayBytes` | private/minkernel/src/PE32CodeMgr.cpp:293-312 | The sections laid one over the other, byte by byte: the last section that covers a byte decides it; bytes under no section are those of the image below. |
| `Loaders.CopySafeBytes` | private/minkernel/src/AsciiUtils.cpp:46-60 | Byte by byte, what a safe copy leaves in an image: the source, zeros over the whole destination when the source is too long, or nothing new for a null destination. |
| `Loaders.LoadedRights` | private/minkernel/src/PE32CodeMgr.cpp:276-288 | Every page of a loaded image is mapped writable, executable and for user mode. |
| `Loaders.ImageFaithful` | private/minkernel/src/PE32CodeMgr.cpp:276-316 | With the frames it needs and sections that fit, an image is always reported as loaded; it reads as its sections laid over zeros if and only if its base is not 0 or the sections that go to the null address change no byte. |
| `Loaders.SectionLost` | private/minkernel/src/PE32CodeMgr.cpp:290-316 | The failing case: an image at base 0 with one section at address 0 that holds a 7 is reported as loaded, and the byte reads 0. |
| `Loaders.SectionNeedsRoom` | private/minkernel/src/PEFCodeMgr.cpp:181-204 | Where the page behind the counted ones is unmapped, a section reads as it should if and only if its base leaves room on the counted pages. |
| `Loaders.ImageNeedsRoom` | private/minkernel/src/PE32CodeMgr.cpp:273-316 | The same for an image: without room it reads as no content at all. |
| `LoadEffects.LoadSectionOk` | private/minkernel/src/PEFCodeMgr.cpp:181-204 | A section whose pages miss the allocator's frames is loaded if and only if the frames suffice for its pages and missing tables: then it reads as its bytes followed by zeros (only zeros at the null address) on distinct fresh frames, with no other translation or live frame changed; otherwise the load is undone. The allocator's frames stay mapped to themselves. |
| `LoadEffects.LoadImageOk` | private/minkernel/src/PE32CodeMgr.cpp:269-316 | The same for an image, which reads as its sections laid in order over zeros, but for those copied to the null address; it is refused for its sections exactly when some section leaves the image or the file, and then no page stays mapped. |
| `LoadEffects.SectionKeepsFrames` | private/minkernel/src/PEFCodeMgr.cpp:181-204 | Without the assumption on the pages: a load keeps every frame of the allocator at its own address if and only if no page it gets to has such an address. |
| `LoadEffects.ImageKeepsFrames` | private/minkernel/src/PE32CodeMgr.cpp:269-316 | The same for an image, whose base the code compares with nothing. |
| `LoadEffects.RootOverwritten` | private/minkernel/src/PE32CodeMgr.cpp:276-288 | The failing case: an image based at the root table's address takes that address away from it. |
| `LoadEffects.OutOfFrames` | private/minkernel/src/PEFCodeMgr.cpp:186-197 | With no frame left the load fails at once and changes nothing, so pages of the window that the identity map covered stay mapped. |
| `LoadEffects.SectionResidue` | private/minkernel/src/PEFCodeMgr.cpp:186-197 | A section refused for lack of frames leaves no page of its range mapped if and only if the pages beyond those that were affordable, counted from the free frames and the missing tables, were unmapped before the call. |
| `LoadEffects.ImageResidue` | private/minkernel/src/PE32CodeMgr.cpp:276-306 | The same for an image; one refused for its sections always leaves no page mapped. |
| `LoadEffects.PageStaysMapped` | private/minkernel/src/PEFCodeMgr.cpp:186-197 | A concrete state, two GiB mapped with the last frame, in which a load into the image window fails and its page stays mapped. |
| `LoadEffects.SectionLoses` | private/minkernel/src/PEFCodeMgr.cpp:184-198 | A load, however it ends, leaves a frame handed out that a page held before and no longer leads to, if and only if a page it gets to had an entry of its own to that handed-out frame. |
| `LoadEffects.ImageLoses` | private/minkernel/src/PE32CodeMgr.cpp:276-306 | The same for an image. |
| `LoadEffects.LoadedAgain` | private/minkernel/src/PEFCodeMgr.cpp:184-198 | A section that is loaded again loses the frames it had, on every page the second load gets to. |
| `LoaderRuns.LoadSectionRun` | private/minkernel/src/PEFCodeMgr.cpp:181-204 | A section load is a sequence of operations of the memory manager, each allowed when it is made, that names only the pages of the section. |
| `LoaderRuns.LoadImageRun` | private/minkernel/src/PE32CodeMgr.cpp:269-316 | The same for an image. |
| `LoaderRuns.LoadFileRun` | private/minkernel/src/PE32CodeMgr.cpp:252-317 | The same for a whole file. |
| `LoaderRuns.LoadsAct` | private/minkernel/src/PE32CodeMgr.cpp:252-317 | Loads can always be carried out as actions. |
| `LoaderRuns.ActionsStayHome` | private/minkernel/HALKit/AMD64/HalPagingMgr.cpp:173-292 | Over any sequence of single operations and whole loads whose pages miss the allocator's frames: tables, policy, TLB and allocator stay sound, and every frame of the allocator stays mapped to itself. |
| `LoaderRuns.WindowActionsKeepHome` | private/minkernel/src/PEFCodeMgr.cpp:181-204 | Actions inside the image window keep the identity map everywhere else. |
| `ImageLoaders.UnmapImage` | private/minkernel/src/PEFCodeMgr.cpp:172-178 | The descending unmap-and-free loop refines `Loading.UnmapPages`. |
| `ImageLoaders.BackAt` | private/minkernel/src/PEFCodeMgr.cpp:187-192 | Taking a frame and mapping it, with the frame given back on failure, refines `Loading.BackPage`. |
| `ImageLoaders.MapImage` | private/minkernel/src/PE32CodeMgr.cpp:276-288 | The mapping loop with rollback refines `Loading.MapPages` and keeps the address space valid. |
| `ImageLoaders.CopyMemorySafe` | private/minkernel/src/AsciiUtils.cpp:46-60 | Null destinations are left alone, oversized copies zero the destination and return -1, others copy and return the length converted to 32 bits. |
| `ImageLoaders.Int32Law` | private/minkernel/src/AsciiUtils.cpp:59-59 | The conversion to 32 bits gives the number in the signed range with the same remainder modulo 2^32. |
| `ImageLoaders.LoadPefSection` | private/minkernel/src/PEFCodeMgr.cpp:181-204 | pef_load_section in place refines `Loaders.LoadSection`; a null source is refused unchanged. |
| `PeImages.LoadFileOk` | private/minkernel/src/PE32CodeMgr.cpp:252-317 | From the raw file: it is reported as loaded if and only if the headers pass, no section leaves image or file, and the frames suffice for pages and missing tables, and then shows every section that is not copied to the null address; each failure gives its own error, with the state unchanged or undone; the allocator's frames stay mapped to themselves. |
| `PeImages.FileFaithful` | private/minkernel/src/PE32CodeMgr.cpp:252-317 | A file that is loaded reads as it says if and only if it does not ask for base 0 or its sections at address 0 change no byte. |
| `PeImages.FileKeepsFrames` | private/minkernel/src/PE32CodeMgr.cpp:252-317 | A load keeps the allocator's frames at their own addresses if and only if no page it gets to has such an address. |
| `PeImages.FileResidue` | private/minkernel/src/PE32CodeMgr.cpp:252-317 | A file whose headers pass and that is not loaded leaves no page mapped if and only if its sections are to blame or the pages beyond the affordable ones were unmapped before. |
| `PeImages.FileLoses` | private/minkernel/src/PE32CodeMgr.cpp:252-317 | A load of a file loses a frame if and only if a page it gets to held it. |
| `PeFiles.FileHeaders` | private/minkernel/KernelKit/PE.h:24-65 | The files LoadImage takes, by their bytes: "MZ", and machine, section count, optional header size, image base, image size and subsystem as little-endian numbers at 132, 134, 148, 176, 208 and 220, with the whole section table inside the file; these are the numbers it uses. |
| `PeFiles.FileSection` | private/minkernel/KernelKit/PE.h:67-78 | Section i is the one whose address, raw size and raw pointer stand at 12, 16 and 20 of the i-th 40 bytes behind the optional header. |
| `PeFiles.FileLoads` | private/minkernel/src/PE32CodeMgr.cpp:276-316 | With its frames at hand a file is loaded if and only if each section that is not empty lies inside image and file by those numbers, and is refused as invalid otherwise. |
| `PeFiles.FileBytes` | private/minkernel/src/PE32CodeMgr.cpp:290-312 | In a loaded file, byte j of a section is what memory reads at base + address + j, where no later section is copied over it. |
| `PeFiles.FileZeros` | private/minkernel/src/PE32CodeMgr.cpp:274-288 | Bytes of the image that no section is copied over read 0. |
| `PeFiles.ExampleLoads` | private/minkernel/src/PE32CodeMgr.cpp:252-317 | A concrete file with two overlapping sections whose addresses, sizes and offsets all differ, loaded and read back. |
| `PeImages.FillSections` | private/minkernel/src/PE32CodeMgr.cpp:290-312 | The section loop refines `Loaders.LoadSections`, rollback included. |
| `PeImages.PE32Loader.constructor` | private/minkernel/src/PE32CodeMgr.cpp:65-98 | `fBad` is set exactly for files that are not well formed for this machine. |
| `PeImages.PE32Loader.CheckHeaders` | private/minkernel/src/PE32CodeMgr.cpp:255-269 | The divided bound on the section count holds exactly when the whole section table lies in the file. |
| `PeImages.PE32Loader.LoadImage` | private/minkernel/src/PE32CodeMgr.cpp:252-317 | A call that finds an address recorded returns it unchanged; any other refines `LoadFile` and records the base on success only, so that an image at base 0 is loaded again by the next call. |
| `Pef.StringLen` | private/minkernel/src/AsciiUtils.cpp:16-20 | The length up to the terminator or the bound, never reading past the buffer. |
| `Pef.NameEq` | private/minkernel/src/PEFCodeMgr.cpp:61-77 | Equal exactly when the field is terminated inside its 256 bytes and holds the same text. |
| `Pef.MakeName` | private/minkernel/src/PEFCodeMgr.cpp:80-114 | Succeeds exactly for the three kinds and names that fit, and then writes prefix, name with spaces turned into dollars, and terminator; otherwise the buffer is untouched. |
| `Pef.SectionNamesCollide` | private/minkernel/src/PEFCodeMgr.cpp:80-114 | Two symbols share a section name if and only if their kinds and lengths agree and every pair of characters is equal or made of a space and a dollar sign. |
| `Pef.ReadContainer` | private/minkernel/src/PEFCodeMgr.cpp:117-131 | Accepts exactly the blobs with a known magic, ABI, 1 to 64 headers and a header table inside the blob. |
| `Pef.CheckBounds` | private/minkernel/src/PEFCodeMgr.cpp:150-163 | With every intermediate value a 64-bit number, the tests accept exactly the sections whose content lies in the blob behind the header table and whose range lies in the image window, in unbounded arithmetic. |
| `Pef.FindSection` | private/minkernel/src/PEFCodeMgr.cpp:134-169 | Says yes exactly when the first header of that kind and name passes platform and bounds, and returns that header. |
| `Pef.AcceptedLoads` | private/minkernel/src/PEFCodeMgr.cpp:150-204 | An accepted section with content and room at its address stays inside the image window; with no frames there, it loads faithfully if and only if the frames suffice, and is undone otherwise. |
| `Pef.LocatedOnce` | private/minkernel/src/PEFCodeMgr.cpp:134-169 | At most one header answers a symbol. |
| `Pef.PEFLoader.constructor` | private/minkernel/src/PEFCodeMgr.cpp:212-240 | The loader is bad exactly when the blob is missing or its container has another ABI, fewer than three headers, a wrong magic, or is thin and for another machine; a bad one keeps no blob. |
| `Pef.PEFLoader.FindSymbol` | private/minkernel/src/PEFCodeMgr.cpp:313-331 | A bad loader answers nothing; otherwise name, search and load together: a section without content is found but never loaded, because it reaches the loader as a null source. |
| `Pef.EmptySectionAccepted` | private/minkernel/src/PEFCodeMgr.cpp:134-240 | A concrete container that the constructor takes and whose section passes every check without having content. |
| `PefFiles.ContainerHeaders` | private/minkernel/KernelKit/PEF.h:75-87 | The containers the search takes, by their bytes: four characters of the magic, the ABI at 17, the count at 45, every header inside. |
| `PefFiles.ConstructorTakes` | private/minkernel/src/PEFCodeMgr.cpp:212-240 | The containers the constructor takes, by their bytes: ABI, three headers at least, five characters of the magic and, unless fat, this machine at 21. |
| `PefFiles.HeaderNumbers` | private/minkernel/KernelKit/PEF.h:91-101 | Header i holds its cpu, kind, offset, content size, address and size as little-endian numbers at 256, 268, 270, 278, 286 and 294 of the i-th 304 bytes behind the container. |
| `PefFiles.FirstAnswers` | private/minkernel/src/PEFCodeMgr.cpp:144-166 | The first header of that name and kind decides: something is found if and only if its numbers are acceptable, and it is found with those numbers. |
| `PefFiles.SymbolBytes` | private/minkernel/src/PEFCodeMgr.cpp:186-204 | After FindSymbol memory reads, at the address in the header of the symbol, the content at the offset in that header, then zeros, when the frames suffice. |
| `PefFiles.SymbolRefused` | private/minkernel/src/PEFCodeMgr.cpp:313-331 | A symbol whose section is not acceptable or has no content is refused and nothing changes. |
| `PefFiles.SymbolMissing` | private/minkernel/src/PEFCodeMgr.cpp:313-331 | So is a symbol that no header answers to, or of a kind that has no section. |
| `PefFiles.ExampleAnswers` | private/minkernel/src/PEFCodeMgr.cpp:80-204 | A concrete container whose three headers answer for the code, the data and the zeros of one symbol with a space in its name, each with its own bytes. |
| `Crc32.StepsLinear` | private/minkernel/src/Crc32.cpp:15-47 | The division step is linear over GF(2), any number of times. |
| `Crc32.FeedAtOnce` | private/minkernel/src/Crc32.cpp:15-63 | Message bits fed one by one equal the bits added at once followed by as many steps. |
| `Crc32.DividesBits` | private/minkernel/src/Crc32.cpp:53-63 | Dividing a message byte by byte is dividing its bits one by one, each byte lowest bit first. |
| `Crc32.TableIsSteps` | private/minkernel/src/Crc32.cpp:15-47 | Each of the 256 table entries is its index after eight steps of the RFC 1952 polynomial. |
| `Crc32.TableRound` | private/minkernel/src/Crc32.cpp:60-60 | One round of the loop, sign-extended characters included, is one byte of the serial division. |
| `Crc32.CalculateCrc32` | private/minkernel/src/Crc32.cpp:53-63 | The table-driven loop equals the bit-serial checksum for every buffer and length; all ones for a null pointer. |
| `Crc32.Residue` | private/minkernel/src/Crc32.cpp:53-63 | A message followed by its checksum, lowest byte first, always leaves the remainder 0xdebb20e3. |
| `Crc32.NothingSums` | private/minkernel/src/Crc32.cpp:53-63 | The checksum of no bytes is 0. |
| `Crc32.DivideInjective` | private/minkernel/src/Crc32.cpp:53-63 | Different remainders stay different whatever follows. |
| `Crc32.BurstsDetected` | private/minkernel/src/Crc32.cpp:53-63 | Two buffers of equal length that differ only within 32 consecutive bits, wherever these start, never have the same checksum. |
| `Numbers.ReadsLongestNumeral` | private/minloader/BootKit/Support.h:67-145 | For every string and base: the result is the clamped value of the longest prefix that is a numeral (spaces, sign, 0x or 0b, digits), the end pointer stands behind it, and no longer prefix is a numeral; 0 and the start when there is none. |
| `Numbers.CutoffTest` | private/minloader/BootKit/Support.h:112-135 | The cutoff test holds exactly when the next digit would leave the range. |
| `Numbers.ReadStart` | private/minloader/BootKit/Support.h:79-110 | Skipping spaces, sign and prefix finds the digits and their base; the end pointer is preset behind a leading 0 only. |
| `Numbers.ReadDigits` | private/minloader/BootKit/Support.h:112-136 | The digit loop never wraps, reports overflow exactly when the whole run exceeds the limit for its sign, and stops behind the last digit. |
| `Numbers.StringToLong` | private/minloader/BootKit/Support.h:67-145 | The function on a terminated string refines the specification of `ReadsLongestNumeral`; an invalid base returns 0 and leaves the end pointer alone. |
| `Numbers.SignedDigits` | private/minloader/BootKit/Support.h:79-145 | For bases 2 to 16, spaces, a sign or none and the digits of any number read as that number, negative after a minus only, stopped at the limits of a long, with the end behind the digits. |
| `Numbers.PrefixedDigits` | private/minloader/BootKit/Support.h:88-110 | The same behind 0x or 0X in base 16 or 0, behind 0b or 0B in base 2 or 0, and in base 0 behind a 0 (octal) or nothing (decimal). |
| `Numbers.OneCharacter` | private/minloader/BootKit/Support.h:115-124 | Every single character in every base: digits and letters of either case stand for 0 to 35 when below the base, anything else is no number. |
| `Numbers.DigitsValue` | private/minkernel/src/AsciiUtils.cpp:120-142 | The digits stand for the number and start with 0 only for 0. |
| `Numbers.DigitsUnique` | private/minkernel/src/AsciiUtils.cpp:120-142 | They are the only upper-case digit string without superfluous zeros for it. |
| `Numbers.PrintedLetters` | private/minkernel/src/AsciiUtils.cpp:120-142 | Only the characters 0 to 9 and A to F are printed, each with its value, and the small letters read as the capital ones. |
| `Numbers.PrintedBeef` | private/minkernel/src/AsciiUtils.cpp:120-142 | 48879 in base 16 is BEEF. |
| `Numbers.ReverseInPlace` | private/minkernel/src/AsciiUtils.cpp:135-139 | The swap loop reverses the prefix and touches nothing behind it. |
| `Numbers.ToString` | private/minkernel/src/AsciiUtils.cpp:125-142 | rt_to_string writes exactly those digits and a terminator; an invalid base leaves the buffer alone. |
| `Numbers.PrintedReadsBack` | private/minkernel/src/AsciiUtils.cpp:120-142 | For bases 2 to 16 every value below 2^63 reads back as itself and larger ones as the largest long, with the end pointer at the terminator. |
| `MemoryCopy.WordsDown` | private/libSystem/src/System.cpp:40-47 | The backward word loop is a move of the whole range. |
| `MemoryCopy.BytesUp` | private/libSystem/src/System.cpp:73-79 | The forward byte loop is a move of the whole range. |
| `MemoryCopy.CopyMemory` | private/libSystem/src/System.cpp:23-84 | The state after every call, in the exceptional case too. |
| `MemoryCopy.CopiedAt` | private/libSystem/src/System.cpp:23-84 | That state byte by byte: moved from the old memory, and in the exceptional case the lowest bytes left as they were and the highest moved from what was already overwritten. |
| `MemoryCopy.CopyIsMoveExactly` | private/libSystem/src/System.cpp:23-84 | The result is a memmove for every memory content if and only if the call is not a backward, both-ends-aligned copy of at least 8 bytes whose length is no multiple of 8; a concrete memory shows each exception. |
| `MemoryCopy.PatternBytes` | private/libSystem/src/System.cpp:102-105 | The three shift-and-or steps put the value into all eight bytes. |
| `MemoryCopy.FillMemory` | private/libSystem/src/System.cpp:96-124 | The range is filled and nothing else changes, by words or by bytes. |
| `Forks.ExtentsDisjoint` | private/minkernel/src/FS/NeFS+FileSystemParser.cpp:83-147 | Headers and data extents of a chain lie in ascending order without overlap. |
| `Forks.DataSectorsLeast` | private/minkernel/src/FS/NeFS+FileSystemParser.cpp:132-132 | The sector count is the least that holds the size. |
| `Forks.LinkedKeeps` | private/minkernel/src/FS/NeFS+FileSystemParser.cpp:119-144 | The header written keeps every flag the caller set and gains bits 0, 1, 2 and 6; name, catalog, size and the rest are the caller's. |
| `Forks.Appended` | private/minkernel/src/FS/NeFS+FileSystemParser.cpp:119-144 | A header written behind the end makes a well-formed chain one longer, links in both directions included, if and only if the 64-bit sums for its size and sector do not wrap. |
| `Forks.Replaced` | private/minkernel/src/FS/NeFS+FileSystemParser.cpp:112-144 | Writing over a fork of the same name leaves the same chain of headers, with whatever end, if and only if nothing wraps and it takes as many data sectors as before, or it is the last fork and every sector from its new end to the old one is empty. |
| `Forks.MiddleForkLost` | private/minkernel/src/FS/NeFS+FileSystemParser.cpp:112-144 | A concrete disk where a fork in the middle grows by a sector and the fork behind it is lost. |
| `Forks.Drive.CreateFork` | private/minkernel/src/FS/NeFS+FileSystemParser.cpp:83-147 | Rejects exactly the invalid requests; otherwise walks to the fork of that name or the end, terminates, and changes that one sector to the linked header, wrapped sums included. |
| `Forks.Drive.FindFork` | private/minkernel/src/FS/NeFS+FileSystemParser.cpp:155-200 | Returns the fork of that name when the chain has one and nothing otherwise (an empty name in an empty catalog matches the first empty sector), and terminates. |
| `Forks.CreateThenFind` | private/minkernel/src/FS/NeFS+FileSystemParser.cpp:83-200 | After creating a fork under a new name, where no sum wraps, it is found, every older fork is found as before, and the chain is well formed. |
| `Forks.CreatedAll` | private/minkernel/src/FS/NeFS+FileSystemParser.cpp:83-147 | After any sequence of creations under new, distinct names whose sums do not wrap, the chain is well formed, has one header more for each fork in its place, and leaves the older ones as they were. |
| `Forks.AllFound` | private/minkernel/src/FS/NeFS+FileSystemParser.cpp:83-200 | And a search finds every one of the new forks, and every older one as it was. |
| `Calls.StepBijective` | private/minkernel/ArchKit/ArchKit.h:113-118 | Each hash step is a bijection on 64-bit states. |
| `Calls.FeedInjective` | private/minkernel/ArchKit/ArchKit.h:113-118 | Different states stay different whatever characters follow. |
| `Calls.NamesSeparated` | private/minkernel/ArchKit/ArchKit.h:104-118 | Equal-length names that differ in one character never collide. |
| `Calls.KnownHashes` | private/minkernel/ArchKit/ArchKit.h:104-118 | The hash of "foobar" is 0x85944171f73967e8, and a character with its high bit set enters sign-extended. |
| `Calls.KeHash64` | private/minkernel/ArchKit/ArchKit.h:104-118 | The kernel's loop computes the hash function; 0 for null and empty names. |
| `Calls.NesysHash64` | private/libSystem/src/Utils.cpp:14-30 | The user-side loop computes the same function on every string. |
| `Calls.EarlierWins` | private/minkernel/ArchKit/ArchKit.h:122-140 | Later installations never take a hash away from the handler that has it. |
| `Calls.DispatchTable.Install` | private/minkernel/ArchKit/ArchKit.h:122-140 | Takes the next slot and records the handler under the hash, or returns -1 exactly for null or empty names, hash 0, null handlers and a full table, and then changes nothing. |
| `Calls.DispatchTable.Dispatch` | private/minkernel/HALKit/AMD64/HalCoreInterruptHandler.cpp:145-162 | After any installations the earliest handler under the hash runs; the kernel stops when there is none. |

## Left out

- Frames.FreeOk: asks that the frame is handed out, because the code does not notice a second free; `FrameAllocator.Allocator.FreeFrame` still gives the exact state after one.
- FrameAllocator.Allocator.Init: regions ending above 2^52 are left out, since an entry holds a 40-bit frame number.
- AddressSpace.Mmu.MapPageIn: physical addresses of 2^52 and above are left out; the entry would keep their low 52 bits, and the processor has no such addresses.
- AddressSpace.Mmu.InitKernelTables: limits above 2^48 are left out; the four-level tables reach no further.
- BootMemory.TrimRegion: a firmware region whose end wraps past 2^64 is left out.
- BootMemory.MapLimit: memory that ends within 1 GiB of 2^64, where rounding up would wrap, is left out.
- BootMemory.TakeOverMemory: memory that ends above 2^48 is left out.
- Words.SplitNumberIsSplitWord: the PAT bit (bit 12) of a large leaf is not carried over, as in the code, whose large leaves never set it; the accessed and dirty bits start clear.
- AddressSpace.Mmu.GetPageAddr: a result of 0 stands for an unmapped page and for physical address 0 alike, as in the code; the specification below it keeps them apart.
- AddressSpace.Mmu.WalkPage: tables, links and fresh frames are read and written physically, while the code uses their physical addresses as virtual ones. That is the same as long as the allocator's frames are mapped to themselves, which `BootMemory.TakeOverMemory` establishes and `LoaderRuns.ActionsStayHome` keeps.
- LoadEffects.LoadSectionOk: asks that the pages miss the allocator's frames, as the code would otherwise read image bytes as tables, and that they lie below 2^48 and have room for the section; bytes behind the last page would fault, or go to whatever is mapped there. The loaders check none of this; `LoadEffects.SectionKeepsFrames`, `Images.PagesCover` and `Loaders.SectionNeedsRoom` give the conditions.
- LoadEffects.LoadImageOk: the same for an image.
- LoadEffects.SectionKeepsFrames: asks for room, for the same reason.
- LoadEffects.ImageKeepsFrames: the same.
- LoaderRuns.LoadsAct: the same for both loaders.
- PeImages.LoadFileOk: the same for the base the file names.
- PeImages.PE32Loader.LoadImage: the same.
- PeFiles.FileBytes: asks for room, and for the frames the image takes; without them nothing is loaded.
- PefFiles.SymbolBytes: asks for room at the address in the header.
- ImageLoaders.LoadPefSection: the same for the section.
- Pef.PEFLoader.constructor: asks for a blob as long as a container header, as the code reads the header before it looks at the length.
- Pef.PEFLoader.FindSymbol: asks that the section found has room at its address, which validation does not check, and that no frame of the allocator lies in the image window, which boot ensures; null names, the constructor that opens a file and the path that reads from it are not modelled.
- ImageLoaders.MapImage: the source blob is a value, so it cannot lie inside the window being mapped.
- Forks.Drive.CreateFork: asks for a well-formed chain with zeroed space behind it; on a chain with a cycle the loop of the code does not end. Drive errors and the catalog lookup are not modelled.
- Forks.Drive.FindFork: asks for a well-formed chain; null arguments are not modelled.
- Numbers.StringToLong: `long` is taken as 64 bits wide.
- Numbers.ToString: asks for a buffer with room, and a null buffer is not modelled.
- Calls.DispatchTable.Install: ke_install_kerncall is the same loop over a second table and is not repeated.
- Concurrency: the allocator's two locks and the kernel's other processors; every call is one sequential step.
- Hardware: the accessed and dirty bits the processor sets by itself, PCID and global-page behaviour of the TLB; a write to CR3 drops every cached translation.
- mm_memory_fence, mmi_page_status, kernel logging and the error channel.
- The heap, the scheduler, mutexes, catalogs and journals of the file system, symbol lookup in PE export tables, other architectures and devices.
