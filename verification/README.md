# Verified model of the Nafuraito kernel's memory management, ext4 reader and line rasteriser

This project models four parts of the operating system and proves what they are for.

1. **Virtual memory over a frame allocator.** Page tables are words in physical frames. `PageTree` says which tree
   of tables and leaves a memory holds, `AccessRights` what the processor lets programs do through it; `Paging` proves
   that mapping, unmapping and remapping are insertion, deletion and update of a finite map, with pruning and with the
   processor's translation caches in the state.
   `Pmm` and `PmmInit` are the bitmap allocator below it; `PmmClients` are its whole runs; `CowModel`, `Cow` and
   `CowClients` are reference-counted sharing on top; `Regions`, `Conservation` and `DemandPaging` are
   lazily populated regions and the conservation of frames.
2. **The kernel heap.** `Slab` keeps free lists inside free objects, `HeapModel` states the invariant of all tables
   and what it means for clients, `HeapSteps` proves that every step keeps it, `Heap` is the allocator over arrays,
   `HeapClients` are whole runs as clients see them.
   `EarlyHeap` is the lock-free allocator of early boot as a state machine of atomic steps.
3. **ext4 block mapping and file reads**, in the kernel (`Ext4`) and in the boot loader (`Ext4Boot`), against one flat
   map: `ExtentTree` for extent trees, `IndirectBlocks` for pointer trees, `FileContents` for files as bytes.
   `Ext4Layout` writes nodes byte by byte and proves that they read back; `FileMeaning` says what the format means and
   when the two readers give it.
4. **The integer line rasteriser** (`Line`), with every 16-bit truncation written out, and exactly which lines those
   truncations spoil.

Code that changes state in place is a class over arrays or reassigned fields, and each of its methods states the
whole new state as a function or relation of the old one; the theorems are lemmas about those functions.

## How the code is read

- The source spells out its four or five table levels; the model runs the same steps in a loop over the levels, so
  one proof covers both modes. A virtual page is the path of indices it selects.
- A 64-bit entry is kept as flags, frame number and high bits; `PageEntry` proves that this loses nothing.
- The processor may cache any current translation and any table address on the way (`CacheWalk`). `invlpg` drops the
  translation of one page and all cached table addresses, as section 4.10.4 of the Intel SDM, volume 3A, says.
- Reference counters, zone counters and `int16_t` variables wrap as they do in a release build.
- A disk is a function from block numbers to bytes, absent where reading fails. A failed read may leave anything in
  its buffer. What a file's read callback leaves in a zeroed page is the parameter `readAt`, by position and length.
- In the early heap a relaxed load, and a compare-exchange that fails, may see any value the offset has had.
- Error strings are constructors of one datatype per module.

## What the proofs brought to light

- The canonical-address check never looks at the top translated bit, so two accepted pages can share a slot
  (`VirtAddr.AcceptedAddressesCollide`); the map is therefore indexed by the translated bits.
- `map_page` creates tables with the rights asked for but leaves existing ones as they are, so a user page below a table
  for the supervisor is reported as mapped and yet out of reach (`AccessRights.SupervisorTableHides`;
  `AccessRights.AdmitsWhatIsAsked` says exactly when a page admits what was asked for). The tables that the boot loader
  sets up for the lowest addresses are of that kind (bootloader/src/stage2/bridge.asm:524-525).
- `handle_cow_fault` leaves the counter of a sole owner at zero, and `share_page_cow` counts only the new mapping:
  sharing such a page again breaks isolation (`CowModel.UncountedShareLeaks`). Demand paging never counts its frames,
  so its pages have the same problem. A fault address that is not page-aligned also loses a reference before it fails;
  `CowModel.StepIsSafe` gives the exact guard of every operation.
- `munmap` frees the frame of a copy-on-write page under the other side of the share (`Cow.FreeingSharedFrame`).
- When a split finds no free slot, `munmap` has already cut the front part off and the rest of the region is lost
  (`Regions.UnregisteredPartIsLost`); its pages in the range are gone as well
  (`DemandPaging.DemandPager.Munmap`).
- A not-present fault handled for a page that was populated in the meantime loses a frame
  (`Conservation.RepopulatingLeaks`), and a frame above the identity map that is handed out for a table is lost
  (`Paging.PagingManager.AllocPageTable` says exactly when).
- The zone counters start at zero, are ignored by `alloc_frame` and wrap; a zone can have free frames and still refuse
  (`Pmm.PhysicalMemoryManager.AllocFrameInZone`).
- The early heap aligns offsets, not addresses; its arena is aligned to 16 (`EarlyHeap.AddressAsAlignedAsArena`).
- Kernel reads of a sparse file with extents fail with NotFound, because the lookup reports a hole as an error and the
  reader passes it on; the boot loader reads zeros, and does so too where a pointer block cannot be read
  (`FileContents.HolesDiffer`, `Ext4Boot.ReadersDisagree`).
- An extent of exactly 32768 blocks has the length field 0x8000, which masking turns into 0
  (`ExtentTree.MaskIsRightExcept`). Extents marked as never written are read like written ones, by both readers
  (`FileMeaning.UnwrittenIsRead`), and a zero pointer above the last level is followed to block 0 rather than taken
  for a hole (`FileMeaning.ZeroPointerIsFollowed`). `FileMeaning.KernelReadsMeaning` and `FileMeaning.BootReadsMeaning`
  say exactly when a block reads as the format means it.
- The 16-bit error term of the line rasteriser overflows on some lines, 10924 pixels by 1 for instance, and then the
  loop strays from the line; `Line.LoopIsExact` says on which, by the greatest common divisor of the sides.

## Model

| member | source | states |
|---|---|---|
| `VirtAddr.SameSlot` | kernel/src/memory/paging.rs:430-452 | two addresses use the same path of table entries if and only if bits 12-47 (12-56 in 5-level mode) agree, in both modes |
| `VirtAddr.PathSpellsVpn` | kernel/src/memory/paging.rs:430-452 | the indices of an address, top table first, are the digits of its page number in base 512 |
| `VirtAddr.SameEntryAbove` | kernel/src/memory/paging.rs:430-452 | two canonical addresses are under the same entry one or two levels above the last exactly if they lie in the same 2 MiB or 1 GiB |
| `VirtAddr.NearbyPagesDiffer` | kernel/src/memory/paging.rs:460-474 | accepted addresses of different pages at most 2^63 apart never share a slot |
| `VirtAddr.CanonicalSlotIsPage` | kernel/src/memory/paging.rs:430-452 | for canonical addresses a path is a page: same path exactly when same page number |
| `VirtAddr.AcceptedIsCanonicalIff` | kernel/src/memory/paging.rs:460-474 | every canonical address passes the check; an address that passes is canonical exactly if its top translated bit agrees with the bits above it, which the check never compares |
| `VirtAddr.AcceptedAddressesCollide` | kernel/src/memory/paging.rs:460-465 | two different pages, both accepted in 4-level mode, that share one table slot |
| `PageEntry.PackUnpack` | kernel/src/memory/paging.rs:160-204 | splitting a 64-bit entry into flags, frame and high bits and joining it again gives the same number |
| `PageEntry.UnpackPack` | kernel/src/memory/paging.rs:160-204 | every unpacked entry is some 64-bit number, and is recovered from it |
| `PageEntry.PackedAddress` | kernel/src/memory/paging.rs:179-181 | the masked address field of a packed entry is the frame number times 4096 |
| `PageEntry.FlagBits` | kernel/src/memory/paging.rs:70-81 | present, writable, user and the other flags are bits 0 to 11 of the packed entry, in that order, and the rest above the address is bits 52 to 63 |
| `PageEntry.ZeroWord` | kernel/src/memory/paging.rs:621-630 | an entry is zero as a number exactly if all its fields are empty, so the empty-table test sees every leftover |
| `AccessRights.WalkFindsRights` | kernel/src/memory/paging.rs:595-618 | the walk of the processor, which takes user, write and execute rights of all levels together, finds the rights of the page from any table on its way |
| `AccessRights.MappedPageAdmits` | kernel/src/memory/paging.rs:595-731 | a page mapped into a memory admits what is asked for as far as the tables that were on its way before admit it: new tables take nothing away |
| `AccessRights.AdmitsWhatIsAsked` | kernel/src/memory/paging.rs:595-618 | so it admits exactly what is asked for if and only if each of those tables admits that |
| `AccessRights.SupervisorTableHides` | kernel/src/memory/paging.rs:599-601 | one table on the way that was for the supervisor only keeps user mode out, whatever is asked for |
| `AccessRights.PageRightsStay` | kernel/src/memory/paging.rs:595-618 | a page that keeps its entry keeps its rights as long as the flags of table entries stay |
| `AccessRights.LinkedFlags` | kernel/src/memory/paging.rs:606-617 | linking a table writes an entry that is present, writable, for user mode exactly if that is asked for, and nothing else; the other table entries keep their flags |
| `PageTree.StoreLeaf` | kernel/src/memory/paging.rs:634-731 | writing a present last-level entry into the table above it inserts or updates exactly one leaf of the tree that memory encodes |
| `PageTree.EraseLeaf` | kernel/src/memory/paging.rs:799-805 | zeroing such an entry deletes exactly that leaf |
| `PageTree.LinkTable` | kernel/src/memory/paging.rs:595-618 | pointing an absent entry at a zeroed frame adds a table and no leaf |
| `PageTree.UnlinkTable` | kernel/src/memory/paging.rs:807-829 | zeroing the entry of an all-zero table removes that table and no leaf |
| `PageTree.WalkIsSound` | kernel/src/memory/paging.rs:896-1033 | whatever the walk over memory returns is a leaf on the path of the address; if it returns nothing, no leaf covers the address |
| `PageTree.WalkReachesLeaf` | kernel/src/memory/paging.rs:896-1033 | from any table on the path the walk ends at the one leaf that covers the address, huge leaves included |
| `PageTree.WalkFromTable` | kernel/src/memory/paging.rs:402-404 | a walk resumed at a table lower on the path ends where the full walk ends |
| `PageTree.EmptyTable` | kernel/src/memory/paging.rs:621-630 | a table of memory is all zero exactly if the tree has no table and no leaf right below it |
| `PageTree.LeavesDetermineTables` | kernel/src/memory/paging.rs:807-884 | two trees with the same root, no useless tables and the same leaves have the same set of tables |
| `PageTree.CutKeepsTidy` | kernel/src/memory/paging.rs:807-829 | removing an empty table leaves at most its parent without use: what bottom-up pruning relies on |
| `Paging.PagingManager.AllocPageTable` | kernel/src/memory/paging.rs:559-581 | a zeroed frame below 4 GiB that was free and is no table; fails exactly when every frame is in use, or when neither zone below 4 GiB offers a frame and the cyclically next free frame lies above the identity map, which is then lost |
| `Paging.PagingManager.GetOrCreateNextLevel` | kernel/src/memory/paging.rs:595-618 | the table below an entry, created if absent; the entry of a new table is present, writable, and for user mode exactly if that is asked for, and all other table entries keep their flags; no leaf changes; fails exactly when the table is absent and no frame for one can be had, and then the tree is as before |
| `Paging.PagingManager.DescendCreating` | kernel/src/memory/paging.rs:634-722 | reaches the last table of a path, creating the missing ones; fails only for lack of frames, and never if the table exists |
| `Paging.PagingManager.Descend` | kernel/src/memory/paging.rs:740-800 | reaches the last table of a path exactly if it exists, remembering the tables on the way |
| `Paging.PagingManager.MapPage` | kernel/src/memory/paging.rs:634-733 | success is exactly insertion or update at one virtual page; the address then translates to the frame given, and programs may do there what the flags and the tables that were there before admit; new tables lie on its path in frames that were free; never fails when the last table exists; on failure no leaf changes and the reason is alignment, the address check or lack of frames; no stale cached translation afterwards |
| `Paging.PagingManager.RemapPage` | kernel/src/memory/paging.rs:1226-1324 | succeeds exactly for a mapped page and an aligned frame; updates that one leaf; tables, the flags of their entries and all data frames stay |
| `Paging.PagingManager.UnmapPageInternal` | kernel/src/memory/paging.rs:740-893 | succeeds exactly for an accepted, mapped address; deletes that one leaf; with pruning removes only empty tables of its path and gives back exactly their frames; the tables that stay keep the flags of their entries; failures change nothing |
| `Paging.PagingManager.PruneTables` | kernel/src/memory/paging.rs:807-829 | frees empty tables bottom up, never the root; a tree that was tidy except there is tidy afterwards |
| `Paging.PagingManager.UnmapPage` | kernel/src/memory/paging.rs:735-737 | the public form: deletion of one leaf, and a tidy tree stays tidy |
| `Paging.PagingManager.LookupIsLookup` | kernel/src/memory/paging.rs:896-1153 | looking up memory equals looking up the finite map of leaves |
| `Paging.PagingManager.TranslationIsLookup` | kernel/src/memory/paging.rs:896-1033 | translation and flags come from the one leaf that covers the address, for 4 KiB, 2 MiB and 1 GiB pages, and fail exactly if there is none |
| `Paging.PagingManager.TranslationBySize` | kernel/src/memory/paging.rs:896-1033 | for a 4 KiB, 2 MiB or 1 GiB page the physical address divided by that size is the frame number in such units, and its remainder is that of the virtual address |
| `Paging.PagingManager.SamePageSameDistance` | kernel/src/memory/paging.rs:896-1033 | two canonical addresses on one page of any size are as far apart after translation as before |
| `Paging.PagingManager.PresentEntryMaps` | kernel/src/memory/paging.rs:940-1016 | the entries that map memory are the present ones of the last level and the huge ones one or two levels above |
| `Paging.PagingManager.PageLookup` | kernel/src/memory/paging.rs:1037-1153 | without huge pages on the path, only the address's own slot decides translation and flags |
| `Paging.PagingManager.CachesAreTransparent` | kernel/src/memory/paging.rs:402-404 | in every valid state each cached translation and each cached table address gives the translation the tables give now |
| `Paging.PagingManager.CacheWalk` | kernel/src/memory/paging.rs:402-404 | the processor may cache any translation or table address of the current tables at any time; validity is kept |
| `Paging.GrowthKeepsFrame` | kernel/src/memory/paging.rs:595-618 | adding tables overwrites no frame that holds data |
| `Pmm.PhysicalMemoryManager.AllocFrame` | kernel/src/memory/pmm.rs:473-528 | fails exactly when no frame is free, never in the search; returns the first free frame at or after the hint, wrapping around, and marks only it |
| `Pmm.PhysicalMemoryManager.SearchFrame` | kernel/src/memory/pmm.rs:483-527 | the byte-wise search from the hint finds the cyclically first free frame, and nothing only if all frames are in use |
| `Pmm.PhysicalMemoryManager.AllocFrameInZone` | kernel/src/memory/pmm.rs:536-592 | succeeds exactly if the zone counter is not zero and the zone has a free frame; returns the least one |
| `Pmm.PhysicalMemoryManager.AllocDma32Frame` | kernel/src/memory/pmm.rs:617-624 | the least free frame of the DMA zone if it offers one, else of DMA32; succeeds exactly if one of the two zones offers one |
| `Pmm.PhysicalMemoryManager.AllocFramesContiguous` | kernel/src/memory/pmm.rs:635-717 | for more than one frame: the least free run of the zone although the search jumps past every used frame, and a failure exactly if there is no run; for one frame: the choice and the failure condition of the single-frame allocation, by zone or cyclic |
| `Pmm.PhysicalMemoryManager.FreeFrame` | kernel/src/memory/pmm.rs:752-805 | succeeds exactly for an aligned, existing, used frame; misuse is reported and changes nothing |
| `Pmm.CountersWrap` | kernel/src/memory/pmm.rs:790-800 | zone counters count modulo 2^64, so counting up undoes counting down |
| `Pmm.PhysicalMemoryManager.FreeFramesContiguous` | kernel/src/memory/pmm.rs:725-746 | frees the run exactly if all of it is in use; otherwise stops at the first frame that is not, keeping what it freed |
| `Pmm.PhysicalMemoryManager.AllocFrameOrZero` | kernel/src/memory/pmm.rs:1146-1160 | the C wrapper: the cyclically next free frame; address 0 exactly when no frame is free or frame 0 itself was handed out |
| `Pmm.PhysicalMemoryManager.AllocDma32FrameOrZero` | kernel/src/memory/pmm.rs:1289-1298 | the C wrapper for low memory: address 0 exactly when neither zone offers a frame or the DMA zone hands out frame 0; with frame 0 in use a refusal changes nothing |
| `PmmClients.Serve` | kernel/src/memory/pmm.rs:473-805 | over every mix of single, zoned, low and contiguous requests and returns: what is granted was neither in use at the beginning nor held; unzoned requests are refused exactly if there is no such frame or run; free frames and held frames always add up; when everything is given back the bitmap is what it was |
| `PmmClients.HeldAreCounted` | kernel/src/memory/pmm.rs:473-805 | every frame that clients hold is one free frame less than at the beginning |
| `Bitmap.WithBitAt` | kernel/src/memory/pmm.rs:808-852 | setting or clearing a bit changes that bit of the bitmap and no other |
| `Bitmap.MaskIsShift` | kernel/src/memory/pmm.rs:808-852 | bit k of a byte is the one worth 1 << k |
| `Bitmap.RepresentedOnce` | kernel/src/memory/pmm.rs:808-852 | the in-use flags determine the bitmap bytes, padding bits included |
| `Bitmap.FreeCountUpdate` | kernel/src/memory/pmm.rs:794-797 | changing one flag changes the number of clear bits by one: what keeps `free_frames` equal to it |
| `PmmInit.Init` | kernel/src/memory/pmm.rs:241-447 | on success a frame is free exactly if it lies wholly in a usable entry and outside the first 10 MiB, the stack at 31-32 MiB, the bitmap and the memory map, wherever in the machine the map is; the free count is the number of clear bits; each failure code has its exact cause |
| `PmmInit.MarkRegionUsed` | kernel/src/memory/pmm.rs:451-467 | marks the frames of a range and lowers the free count by those that were free |
| `PmmInit.FreeUsable` | kernel/src/memory/pmm.rs:333-361 | clears exactly the bits of frames wholly inside usable entries |
| `PmmInit.FindBitmapRegion` | kernel/src/memory/pmm.rs:265-309 | the first usable entry with room above the kernel, or none exactly if no entry has room |
| `PmmInit.BitmapIsInUsableMemory` | kernel/src/memory/pmm.rs:265-309 | the bitmap goes behind the kernel, at 10 MiB or above, into the first usable entry with so much room there |
| `PmmInit.UsableIsRam` | kernel/src/memory/e820.rs:117-221 | a frame counts as usable exactly if it lies wholly in an entry of type 1 that is neither empty nor to be ignored |
| `PmmInit.HighestIsEnd` | kernel/src/memory/pmm.rs:247-262 | the machine ends where the last usable entry does |
| `PmmInit.RoundedToPages` | kernel/src/memory/pmm.rs:261-263 | bitmap bytes and pages are rounded up, and by less than one |
| `PmmInit.WholePagesMeansBitmapFits` | kernel/src/memory/pmm.rs:260-314 | if usable entries are made of whole pages, the bitmap's own pages are frames of the machine |
| `E820.HighestUsableAddress` | kernel/src/memory/e820.rs:388-403 | the greatest end of a usable entry, 0 if there is none |
| `E820.ZonesPartition` | kernel/src/memory/e820.rs:49-80 | an address below 2^64-1 lies in the bounds of the zone it is classified into, and of no other |
| `E820.ZoneLimits` | kernel/src/memory/e820.rs:49-80 | the zones meet at 16 MiB and at 4 GiB |
| `CowModel.StepIsSafe` | kernel/src/memory/cow.rs:111-342 | the isolation invariant survives an operation if and only if its guard holds: shares need a counted or already shared source, faults an aligned address or more than one reference, counters room below 2^32 |
| `CowModel.RunIsPrivate` | kernel/src/memory/cow.rs:111-342 | over every run of guarded operations the invariant holds and programs see what they would see with private copies of every page |
| `CowModel.OthersUntouched` | kernel/src/memory/cow.rs:236-264 | over such a run the contents of a page change only by stores to it or sharing onto it |
| `CowModel.SoleOwner` | kernel/src/memory/cow.rs:163-174 | with a counter of at most one, a copy-on-write page is the only mapping of its frame: the in-place branch is safe |
| `CowModel.WritableIsAlone` | kernel/src/memory/cow.rs:163-199 | a frame with a writable mapping has no other mapping |
| `CowModel.StepIsPrivate` | kernel/src/memory/cow.rs:148-342 | one operation changes what is read through pages exactly as it would with private copies |
| `CowModel.ResolvedIsWritable` | kernel/src/memory/cow.rs:148-211 | a resolved page is writable, unmarked, and every page reads as before |
| `CowModel.StepEntries` | kernel/src/memory/cow.rs:111-342 | marking and sharing clear the writable bit and set bit 9 in source and destination, resolving does the opposite; every other low bit is that of the entry before, the high ones are clear, and no other entry changes |
| `PageEntry.CowBits` | kernel/src/memory/cow.rs:120-127 | of the twelve low flags, marking changes writable and copy-on-write only |
| `PageEntry.OwnedBits` | kernel/src/memory/cow.rs:165-172 | and so does resolving |
| `CowModel.ShareCopies` | kernel/src/memory/cow.rs:236-264 | after a share the destination reads as the source and nothing else changes |
| `CowModel.UncountedShareLeaks` | kernel/src/memory/cow.rs:259-261 | with a source counter of zero (as the in-place branch leaves it), share, fault and store change what the source page reads |
| `CowModel.CloneCopiesAll` | kernel/src/memory/cow.rs:268-286 | on private contents, a run of shares from one set of pages to another copies every mapped one and changes no other page |
| `CowModel.CloneIsSafe` | kernel/src/memory/cow.rs:268-286 | such a run keeps to the guards of all its shares if at the start every source page is counted or marked and its counter has room for the run |
| `CowModel.SharesArePrivate` | kernel/src/memory/cow.rs:236-286 | over any run of shares, guarded or not, what is read through pages is what copying at once would give |
| `CowClients.ClonedRange` | kernel/src/memory/cow.rs:268-286 | after cloning a canonical range onto another that shares no page with it, every page of the copy reads as its original did and no other page reads differently; with counted originals the pages are isolated as well |
| `CowClients.ServeAll` | kernel/src/memory/cow.rs:111-342 | over any mix of marking, sharing, range cloning, faults, unsharing and stores through the manager: the state is that of the run of the operations carried out, and if that run keeps to its guards programs read what private copies would give |
| `Cow.FreeingSharedFrame` | kernel/src/memory/demand_paging.rs:297-311 | unmapping a page and freeing its frame leaves the other pages on allocated frames exactly if none of them shares the frame |
| `Cow.CowManager.MarkCow` | kernel/src/memory/cow.rs:111-131 | succeeds exactly for an accepted, mapped, aligned address; the new state is that of the marking step, counted even when it fails on alignment |
| `Cow.CowManager.HandleCowFault` | kernel/src/memory/cow.rs:148-211 | succeeds exactly for an aligned copy-on-write page that is the last reference or while a frame is free; the new state is that of the resolving step on every exit |
| `Cow.CowManager.UnshareCowPage` | kernel/src/memory/cow.rs:290-342 | the same, and ordinary pages are left alone with success |
| `Cow.CowManager.SharePageCow` | kernel/src/memory/cow.rs:236-264 | the new state is that of the sharing step, half done when mapping the destination fails; with valid addresses it fails only for lack of frames |
| `Cow.CowManager.CloneRangeCow` | kernel/src/memory/cow.rs:268-286 | the result is that of a run of sharing steps, page by page in order, up to the first failure |
| `Cow.PagesCover` | kernel/src/memory/cow.rs:268-275 | the pages of a range are enough for its size, and one fewer is not |
| `Cow.CowManager.CopyPage` | kernel/src/memory/cow.rs:214-232 | copies one frame and no other, exactly if both addresses are aligned |
| `Cow.CowManager.DecRefcount` | kernel/src/memory/cow.rs:75-89 | wraps below zero in the table but reports zero; frames beyond the table count as zero |
| `Cow.CowManager.IncRefcount` | kernel/src/memory/cow.rs:61-72 | adds one modulo 2^32; frames beyond the table are ignored and count as zero |
| `Cow.CowManager.BreakSharing` | kernel/src/memory/cow.rs:160-209 | in place for the last reference, by copying otherwise; copies exactly when a frame is free |
| `Cow.CowManager.ProgramStore` | kernel/src/memory/cow.rs:148-211 | a program's store goes through exactly on a writable page and never reaches a table |
| `Conservation.RemovingRestores` | kernel/src/memory/demand_paging.rs:297-311 | populating slots of an unmapped range and removing the range restores the tables and the allocator exactly: unmapping frees precisely the tables that mapping created |
| `Conservation.PopulateOne` | kernel/src/memory/demand_paging.rs:399-468 | one successful fault accounts for exactly one data frame and the tables it added |
| `Conservation.RepopulatingLeaks` | kernel/src/memory/demand_paging.rs:414-468 | a fault handled for a page that was populated before loses the first frame: it stays in use, but no table and no new page has it |
| `Conservation.RemoveOne` | kernel/src/memory/demand_paging.rs:297-311 | unmapping one page and freeing its frame gives back its frame and its emptied tables, nothing else |
| `DemandPaging.DemandPager.MapTouchUnmap` | kernel/src/memory/demand_paging.rs:162-468 | a range, anonymous or of a file, can be registered exactly if no region is in the way, a slot is free and the position in the file is that of a page; then exactly the pages touched become present, with their contents and the region's flags; unmapping always succeeds and restores tables, bitmap bytes, free count and registry; a touch that fails has a stated cause and changes no page |
| `DemandPaging.DemandPager.TouchAll` | kernel/src/memory/demand_paging.rs:399-468 | touching addresses of a region of any kind in any order populates exactly their pages with what the region has there, up to the first failure |
| `DemandPaging.FileIsMapped` | kernel/src/memory/demand_paging.rs:425-462 | after any such run, page k of a file-backed region shows page k of the mapped part of the file if that begins before the end of the file, and zeros otherwise |
| `DemandPaging.ZerosAreMapped` | kernel/src/memory/demand_paging.rs:415-424 | and every page of an anonymous region shows zeros |
| `DemandPaging.RangeIsRequest` | kernel/src/memory/demand_paging.rs:62-72 | the range that a request is rounded out to has every byte asked for and no page without one; it is valid exactly if the size is not zero and the rounded end fits 64 bits |
| `DemandPaging.DemandPager.HandleFault` | kernel/src/memory/demand_paging.rs:399-468 | populates the page of the covering region with a fresh frame, zeroed and then filled from the file by a read of what the file has of that page (see `DemandPaging.FileIsMapped`); present faults and uncovered addresses change nothing; every other failure has a stated cause |
| `DemandPaging.DemandPager.Populate` | kernel/src/memory/demand_paging.rs:420-468 | takes a frame, fills it and maps it with the region's flags; every failure has a stated cause |
| `DemandPaging.DemandPager.Munmap` | kernel/src/memory/demand_paging.rs:261-394 | succeeds exactly if the range is valid, some region overlaps it and a needed split finds a slot; removes every mapped page of the range with its frame; if the split finds no slot the pages are removed nevertheless and the region ends where the range begins |
| `DemandPaging.DemandPager.RemovePages` | kernel/src/memory/demand_paging.rs:292-311 | unmaps and frees every mapped page of the range, skipping the others |
| `DemandPaging.RegionRegistry.Mmap` | kernel/src/memory/demand_paging.rs:162-222 | succeeds exactly if the range is valid, overlaps no region and a slot is free; then the first free slot holds the region, and exactly the range is covered in addition |
| `DemandPaging.RegionRegistry.CutRange` | kernel/src/memory/demand_paging.rs:313-391 | over remove, front cut, back cut and split, with the scan meeting slots it filled itself: covers exactly the old addresses minus the range, each with its flags; fails exactly if a region spans the range and no slot is free, and then that region ends where the range begins and nothing else changed |
| `DemandPaging.RegionRegistry.CutSlot` | kernel/src/memory/demand_paging.rs:318-387 | removes, shortens or splits one region; touches another slot only to store the right part of a split |
| `DemandPaging.RegionRegistry.FindRegion` | kernel/src/memory/demand_paging.rs:244-258 | the region of an address, none exactly if the address is not covered |
| `Regions.CoveredOnce` | kernel/src/memory/demand_paging.rs:244-258 | in a registry of disjoint regions the flags of an address are determined |
| `Regions.OverlapMeansShared` | kernel/src/memory/demand_paging.rs:74-76 | two ranges that are not empty overlap exactly if they share an address |
| `Regions.RoundingToPages` | kernel/src/memory/demand_paging.rs:62-72 | rounding goes to the nearest page boundary; above the last one it wraps to zero |
| `Regions.SplitSlot` | kernel/src/memory/demand_paging.rs:355-387 | splitting a region over two slots keeps every address outside the range and its flags |
| `Regions.UnregisteredPartIsLost` | kernel/src/memory/demand_paging.rs:363-383 | when the split finds no slot, the part behind the range is no longer covered by any region |
| `DemandPaging.RegistryRestored` | kernel/src/memory/demand_paging.rs:162-391 | registering a clear range and cutting it out again changes the coverage of no address |
| `Slab.ClassFor` | kernel/src/memory/slab.rs:76-88 | the least class with room for size and alignment, none exactly if 2048 bytes are not enough |
| `Slab.ClassSizesDouble` | kernel/src/memory/slab.rs:27-27 | the class sizes double from 16 to 2048 bytes |
| `Slab.ClassIndexFor` | kernel/src/memory/slab.rs:76-88 | the scan over the classes finds that class |
| `Slab.InitSlabPage` | kernel/src/memory/slab.rs:104-127 | following the links from the head visits every object of the page once, in order, and ends; bytes outside the page stay |
| `Slab.AllocFromSlab` | kernel/src/memory/slab.rs:136-154 | takes the first object of the list, fails exactly when the page is inactive or full; memory stays |
| `Slab.FreeToSlab` | kernel/src/memory/slab.rs:164-203 | links the object in front, exactly for an address where an object starts; otherwise changes nothing |
| `Slab.PopThenPush` | kernel/src/memory/slab.rs:136-203 | an allocation followed by its free restores links and list exactly |
| `Slab.PushList` | kernel/src/memory/slab.rs:196-200 | writing one link extends the list by one object and disturbs no other link |
| `HeapModel.BlocksApart` | kernel/src/memory/heap.rs:273-370 | in every valid state live blocks do not overlap |
| `HeapModel.LiveInArena` | kernel/src/memory/heap.rs:273-370 | live blocks lie inside the arena |
| `HeapModel.LinksApart` | kernel/src/memory/heap.rs:273-352 | no live block touches the link of a free object |
| `HeapModel.HeadersApart` | kernel/src/memory/heap.rs:340-351 | no live block touches the header of a live run, its own included |
| `HeapModel.WritesAreHarmless` | kernel/src/memory/heap.rs:273-427 | clients may overwrite any bytes of their live blocks: the invariant survives |
| `HeapModel.BitMeansOwned` | kernel/src/memory/heap.rs:220-265 | a page's bit is set exactly while some live block owns the page |
| `HeapModel.NothingLiveMeansEmpty` | kernel/src/memory/heap.rs:91-118 | when nothing is live every table equals that of a freshly reset heap: no page is lost |
| `HeapClients.Serve` | kernel/src/memory/heap.rs:445-505 | over every sequence of requests, writes and returns: each request is answered with null exactly if it is no layout or nothing can grant it, else with a block that nobody held, as large and aligned as asked; what clients hold is the fold of the requests over the answers; each client reads in its blocks what it last wrote there; when nobody holds a block the tables are those of an empty heap |
| `HeapClients.ServeAsk` | kernel/src/memory/heap.rs:445-499 | one request: the exact condition of a null answer, and otherwise one more block held, not held before, of the size and alignment asked for |
| `HeapClients.HoldingsApart` | kernel/src/memory/heap.rs:445-465 | blocks that clients hold do not overlap and lie in the arena |
| `HeapClients.WriteAgrees` | kernel/src/memory/heap.rs:273-427 | a write to one block changes what no other client reads |
| `HeapClients.NothingHeldNothingLost` | kernel/src/memory/heap.rs:253-265 | when clients hold nothing, every table is as in an empty heap |
| `HeapSteps.TakingKeepsInv` | kernel/src/memory/slab.rs:136-154 | taking an object keeps the whole heap invariant |
| `HeapSteps.ReturningKeepsInv` | kernel/src/memory/slab.rs:164-203 | returning an object keeps it, the page being possibly empty |
| `HeapSteps.ReclaimingKeepsInv` | kernel/src/memory/heap.rs:405-408 | a slab page without live objects may be released |
| `HeapSteps.TakingRunKeepsInv` | kernel/src/memory/heap.rs:313-352 | taking a run with its header keeps it |
| `HeapSteps.FreeingRunKeepsInv` | kernel/src/memory/heap.rs:412-426 | releasing the pages of a live run keeps it |
| `HeapSteps.GrantAddsOneBlock` | kernel/src/memory/heap.rs:355-427 | a granted request adds exactly one live block of the size asked for, and freeing it restores every table |
| `HeapSteps.ObjectAligned` | kernel/src/memory/slab.rs:27-27 | an object's address is aligned to every power of two up to its class size |
| `HeapSteps.RunHasRoom` | kernel/src/memory/heap.rs:313-351 | behind the header and the alignment gap the run still has room for the request |
| `HeapSteps.PagesAreJustEnough` | kernel/src/memory/heap.rs:313-320 | a large request takes as many pages as header, alignment and size need, and not one more |
| `Heap.KernelHeap.AllocContiguousPages` | kernel/src/memory/heap.rs:220-250 | takes the least run of free pages; fails only if there is none |
| `Heap.KernelHeap.FreeContiguousPages` | kernel/src/memory/heap.rs:253-265 | releases the run in all four tables, ignoring pages past the end |
| `Heap.KernelHeap.AllocSmall` | kernel/src/memory/heap.rs:273-310 | the first page with room, else the first free page; fails exactly if there is neither or no class fits |
| `Heap.KernelHeap.OpenSlab` | kernel/src/memory/heap.rs:294-309 | the first free page becomes a slab page with all objects linked; fails exactly when no page is free; no client byte changes |
| `Heap.KernelHeap.TakeObject` | kernel/src/memory/heap.rs:282-289 | takes the first object of a slab page and counts it |
| `Heap.KernelHeap.AllocLarge` | kernel/src/memory/heap.rs:313-352 | the first run long enough, aligned as asked; fails exactly if there is none |
| `Heap.KernelHeap.AllocInner` | kernel/src/memory/heap.rs:355-370 | null exactly when the size is 0, or the class has no free object and no page is free, or no run is long enough; otherwise an aligned new block, and every byte of every other block stays |
| `Heap.KernelHeap.FreeInner` | kernel/src/memory/heap.rs:373-427 | takes out the one block; null, foreign addresses and addresses in free pages change nothing |
| `Heap.KernelHeap.FreeObject` | kernel/src/memory/heap.rs:393-410 | returns the object, releases the page when it was the last, and keeps every other block's bytes |
| `Heap.KernelHeap.FreeRun` | kernel/src/memory/heap.rs:412-426 | releases as many pages as the header says, which is the whole run |
| `Heap.KernelHeap.AllocThenFree` | kernel/src/memory/heap.rs:355-427 | a request granted and given back leaves every table as it was and every byte of every block |
| `Heap.KernelHeap.ClientWrite` | kernel/src/memory/heap.rs:273-427 | a client's write to its block keeps the heap valid |
| `Heap.KernelHeap.Init` | kernel/src/memory/heap.rs:430-437 | an empty heap, whatever was there before |
| `Heap.KernelHeap.Alloc` | kernel/src/memory/heap.rs:492-499 | the C entry: also null before initialisation and for a size and alignment that are no layout |
| `Heap.LayoutRoundsUp` | kernel/src/memory/heap.rs:492-499 | a size and a power-of-two alignment are a layout exactly if the rounded-up size stays in the signed range |
| `Heap.KernelHeap.Dealloc` | kernel/src/memory/heap.rs:503-505 | the C entry: ignored before initialisation |
| `EarlyHeap.EveryRunIsSafe` | kernel/src/main.rs:217-239 | in every interleaving of any number of calls, with spurious failures and stale relaxed loads, granted ranges are inside the arena, at aligned offsets and pairwise disjoint, and a denied request does not fit what is left |
| `EarlyHeap.StepIsSafe` | kernel/src/main.rs:221-237 | every load and every compare-exchange keeps this, and the offset never decreases |
| `EarlyHeap.GrantedAsAsked` | kernel/src/main.rs:218-235 | an offset handed out is a multiple of the alignment asked for and of 16, and the block ends inside the arena |
| `EarlyHeap.FailureMeansProgress` | kernel/src/main.rs:228-236 | in every run, when a compare-exchange fails and not for no reason, another call was granted since the offset had the value that the call saw |
| `EarlyHeap.MovedMeansGranted` | kernel/src/main.rs:228-236 | over every run the offset moves only because a call is granted |
| `EarlyHeap.OvertakenIffMoved` | kernel/src/main.rs:228-236 | a compare-exchange fails, and not for no reason, exactly if the offset is past the value seen and the request would have fitted there |
| `EarlyHeap.AddressAsAlignedAsArena` | kernel/src/main.rs:207-235 | an address is aligned as asked exactly if the arena is, which is only aligned to 16 |
| `ExtentTree.LookupIsFlatMap` | kernel/src/drivers/ext4journaling/ext4journaling.rs:1070-1140 | on a well-formed tree of any depth the descent finds the physical block of the covering extent of the flat list, and nothing exactly in a hole |
| `ExtentTree.FlatIsOrdered` | kernel/src/drivers/ext4journaling/ext4journaling.rs:1070-1140 | the extents of a well-formed tree, left to right, are in order and do not overlap |
| `ExtentTree.MapsOnce` | kernel/src/drivers/ext4journaling/ext4journaling.rs:1123-1137 | a logical block is stored in one place at most |
| `ExtentTree.MaskIsRightExcept` | kernel/src/drivers/ext4journaling/ext4journaling.rs:494-496 | the masked length is the true length except for an extent of exactly 32768 blocks, which it empties |
| `ExtentTree.ScanIndex` | kernel/src/drivers/ext4journaling/ext4journaling.rs:1092-1101 | the last of the leading keys not above the block |
| `ExtentTree.ScanLeaf` | kernel/src/drivers/ext4journaling/ext4journaling.rs:1123-1139 | the first extent that covers the block, its end a 32-bit number that wraps |
| `Ext4Layout.HeaderReads` | kernel/src/drivers/ext4journaling/ext4journaling.rs:434-440 | a node header written field by field reads back: magic, entry count and depth |
| `Ext4Layout.LeafReads` | kernel/src/drivers/ext4journaling/ext4journaling.rs:473-489 | every entry of a leaf written field by field reads back: first block, length field, and the start from its two halves |
| `Ext4Layout.IndexReads` | kernel/src/drivers/ext4journaling/ext4journaling.rs:451-468 | every entry of an index node reads back: key, and child block from its two halves |
| `Ext4Layout.LeafDecodes` | kernel/src/drivers/ext4journaling/ext4journaling.rs:1123-1137 | a leaf written entry by entry is the leaf of those extents |
| `Ext4Layout.IndexDecodes` | kernel/src/drivers/ext4journaling/ext4journaling.rs:1079-1120 | an index node written entry by entry has below its keys the trees in those blocks |
| `Ext4Layout.PointersRead` | kernel/src/drivers/ext4journaling/ext4journaling.rs:1143-1201 | little-endian pointers written one after the other read back, from a pointer block and from an inode |
| `Ext4.Ext4Filesystem.GetBlockFromExtent` | kernel/src/drivers/ext4journaling/ext4journaling.rs:1070-1140 | equals the descent of the tree the inode and the device encode; read errors and a wrong magic are reported |
| `IndirectBlocks.IndirectIsFlat` | kernel/src/drivers/ext4journaling/ext4journaling.rs:1143-1201 | with every pointer block readable, logical block n is entry n of direct pointers and single, double and triple trees laid end to end, whose length is 12+p+p^2+p^3 |
| `IndirectBlocks.FollowFindsLeaf` | kernel/src/drivers/ext4journaling/ext4journaling.rs:1143-1201 | following pointers by quotient and remainder reaches the leaf with that number, at any depth |
| `Ext4.Ext4Filesystem.GetBlockIndirect` | kernel/src/drivers/ext4journaling/ext4journaling.rs:1143-1201 | equals that lookup, the middle index taken as quotient first and remainder then |
| `Ext4.Ext4Filesystem.ReadAtInto` | kernel/src/drivers/ext4journaling/ext4journaling.rs:917-963 | on success the count is what the file has left or the buffer holds and the bytes are the file's, whichever of the three paths each chunk takes; fails exactly with the error of the first block that cannot be had, or for the block size |
| `Ext4.Ext4Filesystem.ReadChunk` | kernel/src/drivers/ext4journaling/ext4journaling.rs:948-957 | zeros for block 0, a direct read of a whole block, or a part through the scratch page: the same bytes |
| `Ext4.Ext4FileHandle.Read` | kernel/src/drivers/ext4journaling/ext4journaling.rs:1461-1504 | reads on from the position; on failure the position is at the block that could not be had, behind bytes that are the file's |
| `Ext4.Ext4FileHandle.ReadSuccessively` | kernel/src/drivers/ext4journaling/ext4journaling.rs:1461-1504 | reads with buffers of any sizes concatenate to the file: as many bytes as the buffers hold together or the file has left, unless a read meets a block that cannot be had, which is then at the position |
| `FileContents.SlicesConcatenate` | kernel/src/drivers/ext4journaling/ext4journaling.rs:1461-1504 | slices of a file that meet make one slice |
| `FileContents.SliceIsUnique` | kernel/src/drivers/ext4journaling/ext4journaling.rs:917-963 | a file has one byte at every place: a slice is determined by offset and length |
| `FileContents.ByteOfBlock` | kernel/src/drivers/ext4journaling/ext4journaling.rs:935-946 | a file is its blocks, one after the other: byte o of block b is byte b * block size + o of the file |
| `FileContents.HolesDiffer` | kernel/src/drivers/ext4journaling/ext4journaling.rs:947-949 | a hole makes a read of a file with extents fail with NotFound, but reads as zeros in a file without |
| `Ext4Boot.BootContext.GetBlockExtent` | bootloader/src/stage2/ext4_boot.c:206-266 | the boot loader's descent through one static buffer: the same lookup, zero for every failure |
| `Ext4Boot.BootContext.GetBlockIndirect` | bootloader/src/stage2/ext4_boot.c:271-331 | the same for pointer trees |
| `Ext4Boot.SameLookup` | bootloader/src/stage2/ext4_boot.c:230-230 | comparing index keys with the whole block number or with its low 32 bits finds the same block in every well-formed tree |
| `Ext4Boot.BootReadsWhatKernelReads` | bootloader/src/stage2/ext4_boot.c:336-343 | whatever block the kernel can read, the boot loader reads too, byte for byte |
| `Ext4Boot.ReadersDisagree` | bootloader/src/stage2/ext4_boot.c:336-343 | kernel and boot loader differ on a block exactly at a hole of a well-formed extent tree, everywhere under a wrong magic number, and where a pointer block on the way cannot be read |
| `IndirectBlocks.FollowedIffReadable` | kernel/src/drivers/ext4journaling/ext4journaling.rs:1143-1201 | following pointers fails exactly if some pointer block on the way cannot be read |
| `FileMeaning.LookupByOwner` | kernel/src/drivers/ext4journaling/ext4journaling.rs:1123-1139 | the lookup finds a block exactly if an extent covers it with the length the format means, and that extent has not exactly 32768 blocks |
| `FileMeaning.FollowingZero` | kernel/src/drivers/ext4journaling/ext4journaling.rs:1143-1201 | without a zero pointer above the last level the readers follow pointers as the format means them; with one, zeros are meant and the readers go on through block 0 |
| `FileMeaning.KernelFindsMeaning` | kernel/src/drivers/ext4journaling/ext4journaling.rs:1070-1201 | the kernel looks for a block where the format says it is exactly if a written extent of fewer than 32768 blocks stores it (not in block 0), or no zero pointer above the last level leads there; block 0 that happens to end in zero excepted |
| `FileMeaning.BootFindsMeaning` | bootloader/src/stage2/ext4_boot.c:206-343 | the boot loader does so exactly under the same condition, holes allowed, with every pointer block on the way readable |
| `FileMeaning.KernelReadsMeaning` | kernel/src/drivers/ext4journaling/ext4journaling.rs:917-963 | the kernel's bytes of a block are those the format means (zeros for holes and for extents never written) exactly if it looks in the right place or finds zeros by chance |
| `FileMeaning.BootReadsMeaning` | bootloader/src/stage2/ext4_boot.c:536-599 | the same for the boot loader's bytes |
| `FileMeaning.SliceIsMeant` | kernel/src/drivers/ext4journaling/ext4journaling.rs:917-963 | a successful read delivers what the format means, as far as every block of it meets that condition |
| `FileMeaning.PrefixIsMeant` | bootloader/src/stage2/ext4_boot.c:536-599 | the same for what the boot loader loads |
| `FileMeaning.UnwrittenIsRead` | kernel/src/drivers/ext4journaling/ext4journaling.rs:494-501 | a file with one extent never written reads as the device's old bytes, not as zeros, in both readers |
| `FileMeaning.ZeroPointerIsFollowed` | kernel/src/drivers/ext4journaling/ext4journaling.rs:1143-1201 | a file whose pointers are all zero reads as a block of the device, not as zeros, behind the direct pointers, in both readers |
| `Ext4Boot.BootContext.ReadFile` | bootloader/src/stage2/ext4_boot.c:536-599 | loads the file, or as much as fits, block by block, spilling over at most to the end of the last block; fails exactly at the first block of that part whose data cannot be read |
| `Ext4Boot.BootLoadsTheFile` | bootloader/src/stage2/ext4_boot.c:536-599 | where the kernel can read the prefix, the loaded bytes are the kernel's view of the file |
| `Line.WalkFollowsLine` | kernel/src/drivers/video/vga.c:112-145 | after n turns: n steps along the longer side, inside the box, 2*abs(b*dx - a*dy) at most max(dx, dy) |
| `Line.WalkArrives` | kernel/src/drivers/video/vga.c:130-132 | the far corner is reached after exactly max(dx, dy) turns, not before |
| `Line.HalfPixel` | kernel/src/drivers/video/vga.c:112-145 | no visited point is more than half a pixel off the true line, in all octants |
| `Line.LineIsConnected` | kernel/src/drivers/video/vga.c:134-142 | consecutive points are neighbours |
| `Line.LoopIsExact` | kernel/src/drivers/video/vga.c:112-145 | the 16-bit loop visits the points that unbounded integers would exactly if 2*(d + g*((m/g-1)/2)) is at most 32767 for dx >= dy, or 32768 otherwise, with g = gcd(dx, dy), m the longer side and d the difference of the sides |
| `Line.FitsMeansNoOverflow` | kernel/src/drivers/video/vga.c:130-142 | that condition holds exactly if no error term of the run leaves its 16 bits when doubled |
| `Line.SmallLinesFit` | kernel/src/drivers/video/vga.c:112-145 | it holds up to 10923 pixels in each direction; a line 10924 wide and 1 high fails it |
| `GreatestCommonDivisor.ReachesResidue` | kernel/src/drivers/video/vga.c:134-142 | the multiples of one number meet every residue modulo another that their greatest common divisor divides: why the error terms run through all multiples of g |
| `Line.Screen.DrawLine` | kernel/src/drivers/video/vga.c:112-145 | terminates having drawn exactly the max(dx, dy)+1 visited points |
| `Line.PointsAreDrawn` | kernel/src/drivers/video/vga.c:122-128 | every visited point on the screen ends up in the colour |
| `Line.PixelIsDrawn` | kernel/src/drivers/video/vga.c:122-128 | row by row from the top, blue first, then green and red, and an opaque fourth byte if there is one |
| `Line.OthersStay` | kernel/src/drivers/video/vga.c:122-128 | bytes outside the visited pixels stay |

## Left out

- Paging.PagingManager.MapPage: needs a path without huge entries, because the code follows any present entry as a table; the kernel's own identity mapping is therefore not remapped by it here.
- Paging.PagingManager.GetPageFlags: keeps the low twelve flags only, as the code does; no-execute does not survive a share or a fault.
- Pmm.PhysicalMemoryManager.AllocFramesContiguous: says nothing about the zone counters, which are hints that drift.
- Pmm.PhysicalMemoryManager.AllocFrame: also ignores the zone counters, as the code does.
- PmmInit.Init: assumes disjoint usable entries, and that the machine has a frame for the kernel stack below 32 MiB, for the memory map and for the bitmap; the code writes behind the bitmap otherwise. Entries of whole pages are enough for the bitmap (`PmmInit.WholePagesMeansBitmapFits`).
- Cow.CowManager.CloneRangeCow: assumes both ranges lie below 2^64 and hold no huge pages.
- DemandPaging.DemandPager.Munmap: assumes the mapped pages of the range are on data frames of their own, which `Cow.FreeingSharedFrame` shows to be needed.
- DemandPaging.DemandPager.HandleFault: the address is not already populated only as far as `DemandPaging.DemandPager.Touch` guarantees it; `Conservation.RepopulatingLeaks` covers the other case.
- DemandPaging.FileIsMapped: regions of at most 2^63 bytes; in a larger one two accepted addresses can share a slot, and the page shows what the first touch put there.
- Cow.CowManager.ProgramStore: looks at the writable bit of the page only; rights of the tables above it are the subject of `AccessRights`.
- DemandPaging.DemandPager.MapTouchUnmap: conservation is for steps that succeed; failing steps can leak frames, as listed above.
- Heap.KernelHeap.FreeInner: the address is that of a live block, null, outside the arena or in a free page; anything else, a second free of an object included, breaks the source's own contract.
- Ext4.Ext4Filesystem.GetBlockFromExtent: assumes that no node on the way claims more entries than fit in it; the code would read past its buffer.
- Ext4.Ext4Filesystem.GetBlockIndirect: assumes the block is within reach of the pointers; the code panics or reads past its buffer beyond.
- ExtentTree.LookupIsFlatMap: extents end below 2^32, as ext4 demands.
- Ext4.Ext4Filesystem.ReadAtInto: failing allocations of map block buffers are not modelled.
- Ext4Boot.BootContext.ReadFile: the destination has room for the last block as a whole; path lookup is not modelled.
- Line.Screen.DrawLine: stated for the lines that the 16-bit loop draws exactly, which `Line.LoopIsExact` characterises; on the others it leaves the line.
- Line.LoopIsExact: end points at most 32767 apart in each direction, so that the differences themselves fit `int16_t`; no screen is that wide.
- PmmClients.Serve: when zoned requests are refused is left to `Pmm.PhysicalMemoryManager.AllocFrameInZone`, as the zone counters drift.
- Managers that were never initialised: the error returned before `paging_init` and `pmm_init`.
- `map_range`, `unmap_range`, `change_page_flags`, `identity_map_range`, `mark_cow_range`: loops over operations modelled here.
- `register_region` and `register_file_region`, which allow overlapping regions by design; `mmap_file`.
- File positions of regions after a front cut or a split: the code does not advance `file_offset`; coverage and flags are modelled.
- ext4 writes, journaling and recovery, directories, superblock and group descriptors.
- The spin lock of the heap: its calls are modelled one at a time.
- Hardware access, CPUID, control registers, interrupts, guard pages, boot information, fonts and text output.
- NUMA, zone and usage statistics; `alloc_frame_numa`, `alloc_dma_frame`.
