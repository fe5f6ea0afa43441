# Hyper boot loader: a verified model

Hyper is a boot loader for BIOS and UEFI machines. This project models the parts of it that decide
what a kernel is handed and where: page tables, the memory map, file reads, the shared disk cache,
the configuration tree, number and GUID text, the attribute array, and the 64-bit arithmetic of the
32-bit builds. `dafny verify dfyconfig.toml` checks everything.

The source works in place on arrays and records, and so does the model: each component is a class
with `modifies` frames or a method over an `array`, proved against a specification on values, and
the promises of the component are lemmas about that specification.

| files | component | meaning used as specification |
|---|---|---|
| `PageTables`, `AddressPaths`, `PageTableBuilder`, `Modes`, `Mmu`, `MmuArm` | page tables of all six modes | the translation of every virtual address, and the walks of the processors over the bytes of memory (Intel SDM Vol. 3A, sections 4.3, 4.4 and 4.5; Arm Architecture Reference Manual, section D8.3) |
| `RamRuns`, `DirectMap`, `LiveWalk`, `LiveBuild`, `RamTypes` | direct and identity map, and the map that is built while it changes | the type of every physical byte and whether it is translated |
| `MemoryMap`, `MemoryFixup`, `BiosAllocator` | memory map and BIOS page allocator | the type of every physical address (range types of section 15.1 of ACPI 6.4) |
| `FatTable`, `FatIndex`, `ReadProgress`, `BulkRead` | FAT cluster ranges and bulk reads | the cluster chain of the table on disk, and each file byte read on its own |
| `BlockCache`, `BiosDisks` | block cache, scratch buffer, BIOS disks, TFTP reads | the bytes of the named disk, or what the server sends |
| `ConfigTree`, `ConfigParser` | configuration entries and parser | the nesting tree and its pre-order listing |
| `Numbers`, `Guids` | number and GUID text | the unbounded value of a digit string |
| `AttributeArray` | attribute array | the list of attributes, one after the other in memory |
| `LongDivision` | 64-bit division and shift | integer division and multiplication by a power of two |
| `Arith`, `Buffers` | shared arithmetic and byte-buffer facts | |

## Conventions

- Numbers are unbounded. Where the source's width matters it is written out: 32-bit slots, entry
  address masks, 16-bit FAT ranges, block masks and value offsets, the 32-bit byte count of the BIOS
  allocator, 64-bit wrap-around in range checks, number parsing, division and shifts.
- Firmware is a parameter or a free choice. Disk reads may fail and then leave anything in their
  buffer; a ghost counter records each failure, and contracts say that a request fails only when the
  counter moved. Page allocation for tables takes pages from a given list and fails when it is empty.
  TFTP replies and the sizes of the memory map between allocations are given sequences.
- `BUG_ON`, `oops`, `die` and `panic` are results (`Halted`, `Stopped`, `NotFreed`, `Bug`, `HugeInWay`, `MetHugePage`,
  `Died`, `Oops`, `GrewTooFast`, `None` of `UDivMod`), or preconditions where the proof shows that they are not reached.
- A read that makes no progress any more is the result `Stuck`.

## What the code needs

These are preconditions here.

- Mapping works on a table tree without shared tables.
- The direct map needs limits that are whole huge pages or beyond all RAM, two windows that fit the address space side
  by side, and no physical address below a limit that is wider than an entry.
- Types given to the allocator are types the mask knows. Address 0 is the failure result.
- Block sizes of files and disks are powers of two of at most 64 KiB.

## Properties the code does not have

Each is shown by an example and bounded by an if-and-only-if.

- The direct map can meet the huge-page check when RAM is not page aligned. Only free ranges are aligned at
  detection, and ACPI ranges count as RAM too. It does if and only if two neighbouring runs round out to a
  page in the huge interior of the earlier one: `ClashIff`, `UnalignedExample`.
- On BIOS the direct map is built from a walk over the live memory map, from which the table pages of the walk itself
  are taken. The walk sees exactly the RAM, in order, if and only if no visit changes the RAM at or before its own
  index: `ExactIff`, `DisturbedExample`. That is sure when the RAM above the first huge page is one stretch, since only
  the flush at a gap takes pages: `LiveBuild.Build`. `DirectMapper.Build` is about the entries visited,
  `LiveBuild.Build` about the walk that visits them; on UEFI the walk is over a copy.
- A cache read that starts inside a block can pass the end of the window and then be misread: `CopyStaysInWindow`,
  `CopyLeavesWindowExample`; `Served` is what it gives. Bulk reads make such reads for unaligned heads:
  `SnugFitsAll`, `HeadLeavesWindowExample`.
- A bulk read can get stuck: `BulkReadFile` with `Steady`, `StuckExample`. Two callers could meet this. One is FAT with
  64 KiB blocks in a build with 32-bit sizes, for a request of more than 2^32 - 131072 bytes: `ReadFatFile` gets stuck
  exactly on the unsteady requests. The other is ISO9660 past 4 GiB on a disk with 64 KiB blocks: `ReadIsoFile`. FAT
  reads in 64-bit builds, and ISO9660 reads on disks with smaller blocks, never get stuck.
- The first read of a FAT file is bounded by a size that is corrected only afterwards, so it can go on behind the end of
  the chain: `StaleSizeExample`, `StaleRead`. The bytes are those of the chain if and only if the request ends inside
  it, as it does after an earlier read or when the declared size is within the chain: `InsideChainIff`, `ReadFatFile`.
- `mme_align_if_needed` can leave its range: `AlignStaysInside`, `AlignLeavesRangeExample`.
- The allocator's size check misses some overflows of the byte count: `SizeCheckExact`,
  `SizeCheckMissesOverflow`.
- Freeing an allocation does not restore the map when a remainder below a page was dropped: `FreeRestores`,
  `FreeLosesExample`.
- A free whose byte count wraps to 0 is accepted inside any range that is not free, and leaves an empty entry. The map
  keeps its meaning; it stays canonical if and only if the empty entry merged away: `EmptyFreedMeaning`,
  `EmptyFreeExample`.
- The 16-bit block mask is inexact above 64 KiB blocks: `MaskExact`, `MaskWrapsExample`.
- A value 16 objects deep leaves the depth table: `OverrunIff`, `NestedTooDeep`.
- An object can be empty, against the parser's own error for it: `EmptyObjectIff`, `EmptyObjectExample`.
- The search for the next value of a key can end in a section: `StraysIntoSection`, `StrayExample`.
- The 16-bit offset of a value is inexact past 65536 entries: `OffsetsExact`, `OffsetWrapsExample`.
- A lower-case GUID field that starts with `0b` is misread: `HexReadExact`, `LowerCaseExample`. A number printed
  with the prefix `0X` is never read back: `UpperPrefixRefused`.

## Model

| member | source | states |
|---|---|---|
| `PageTables.EntryRoundTrip` | loader/virtual_memory.c:69-89 | flags written with a page address survive a slot of 32 or 64 bits, and masking reads back the address as far as slot and mask can hold it |
| `PageTables.DescendPlace` | loader/virtual_memory.c:103-129 | in a tree without shared tables, following links for an index path ends in the one table placed at that path |
| `PageTables.LinkKeepsWalks` | loader/virtual_memory.c:83-88 | hanging a zeroed table behind an absent slot changes no walk |
| `PageTables.LinkKeepsUnshared` | loader/virtual_memory.c:83-88 | and keeps the tree free of sharing |
| `PageTables.FillKeepsOtherWalks` | loader/virtual_memory.c:160-164 | rewriting leaf slots changes no walk that does not pass one of them |
| `AddressPaths.BatchIsOverlay` | loader/virtual_memory.c:147-164 | filling the slots of one table is exactly that many pages of the request |
| `AddressPaths.OverlayAppend` | loader/virtual_memory.c:150-156 | two batches in a row are one request, for every split |
| `AddressPaths.PathIsPageNumber` | loader/virtual_memory.c:50-62 | for every format, two addresses select the same slots exactly when their residues have the same page number; the residue of the 52-bit AArch64 format joins the low 52 bits and the root index |
| `AddressPaths.FlatRequest` | loader/virtual_memory.c:131-167 | for every format, a request maps byte for byte: addresses of the range go to the physical base plus their offset, all others are untouched |
| `PageTableBuilder.FormatOf` | loader/arch/x86/virtual_memory.c:14-37 | the parameters of every mode, with or without the AArch64 access flag, give a well-formed tree; what they are is in `ModeNumbers`, `X86Finds` and `ArmFinds` |
| `PageTableBuilder.PageTable.constructor` | loader/arch/x86/virtual_memory.c:8-73 | a lone zeroed root translates nothing |
| `PageTableBuilder.Init` | loader/arch/x86/virtual_memory.c:8-73 | a table that translates nothing, or none at all exactly when there are fewer pages than the root needs |
| `PageTableBuilder.PageTable.PopulatePaeRoot` | loader/arch/x86/virtual_memory.c:60-72 | the four PAE root slots are links with the present bit alone and still nothing is mapped; fails exactly with fewer than four pages |
| `PageTableBuilder.PageTable.TableAt` | loader/virtual_memory.c:69-89 | the table behind a slot, made on demand; no translation changes; the huge-page check is met exactly at a huge page, and failure is only without pages |
| `PageTableBuilder.PageTable.GetPte` | loader/virtual_memory.c:103-129 | reaches the table of the wanted level on the address's path, keeping every translation; the huge-page check is met only where a larger page maps the address |
| `PageTableBuilder.PageTable.WriteSlots` | loader/virtual_memory.c:158-164 | consecutive slots hold consecutive pages, all other slots stay |
| `PageTableBuilder.PageTable.BulkMapPages` | loader/virtual_memory.c:131-167 | one batch lies over the old translation; progress on success, and failure only without pages |
| `PageTableBuilder.PageTable.MapPages` | loader/virtual_memory.c:169-207 | for every format, page kind and count: the translation after is the request laid over the translation before, in full on success and up to the failing page otherwise; it fails only without pages or at a page that lies in a larger one; it takes a page unless the table of its first page was already there |
| `Modes.ModeNumbers` | loader/arch/x86/virtual_memory.c:14-37 | per mode in numbers: page and huge page size, how much address space a table tells apart, how wide a physical address and a slot are, and that a table is a page |
| `Modes.MapFresh` | loader/virtual_memory.c:131-207 | per mode in numbers: on a fresh table one request translates exactly the addresses the mode cannot tell from its own, each to the byte at its offset; every table is a page and every entry fits its slot |
| `Mmu.X86Finds` | loader/arch/x86/virtual_memory.c:8-73 | in each x86 mode, a processor that walks the bytes of memory as the manual says finds exactly what the tables translate, writable and cached; also through the four reserved-bit pointers of PAE |
| `Mmu.TablesReside` | loader/virtual_memory.c:64-67 | there is memory that holds the tables slot by slot |
| `MmuArm.ArmFinds` | loader/arch/aarch64/virtual_memory.c:19-43 | on both AArch64 formats, from the base register of either half that was set up, the same, with the access flag as asked; inner shareable with 48 bits, and with 52 bits the field that is then part of the address is clear |
| `MmuArm.BaseIsRootSlot` | loader/arch/aarch64/virtual_memory.c:10-17 | the base registers are the root slots that the builder selects for their halves |
| `RamRuns.FoldRuns` | loader/boot_protocol/ultra.c:1242-1266 | entries visited in order fold into the maximal stretches of their RAM |
| `RamRuns.CutRun` | loader/boot_protocol/ultra.c:1223-1240 | the huge-page interior of a page-aligned run holds exactly the huge pages that are RAM throughout |
| `RamRuns.MappedPages` | loader/boot_protocol/ultra.c:1223-1240 | for any alignment, a byte above the first huge page is mapped exactly when its page holds a byte of RAM |
| `RamRuns.AlignedLevels` | loader/boot_protocol/ultra.c:1186-1240 | for page-aligned RAM, exactly the RAM is mapped, huge exactly where all of the huge page is RAM |
| `RamRuns.AlignedNoClash` | loader/boot_protocol/ultra.c:1190-1213 | and no run meets a huge page already there |
| `RamRuns.ClashIff` | loader/virtual_memory.c:69-89 | for any alignment, some run meets a huge page already there if and only if two neighbouring runs round out to a page in the huge interior of the earlier one |
| `RamRuns.UnalignedExample` | loader/boot_protocol/ultra.c:1150-1167 | a map with aligned free memory and unaligned ACPI ranges that does |
| `DirectMap.DirectMapper.Request` | loader/virtual_memory.c:169-207 | a request that stays in a flat piece of the address space appears there byte for byte, or meets the huge-page check exactly when one of its pages is blocked |
| `DirectMap.DirectMapper.MapOneRange` | loader/boot_protocol/ultra.c:1190-1213 | a piece appears in both windows, clipped to their limits; the huge-page check is met exactly when a small piece lies over a huge one below the limits |
| `DirectMap.DirectMapper.MapRamRange` | loader/boot_protocol/ultra.c:1223-1240 | a run of any alignment adds exactly its pieces; the huge-page check is met exactly when the run clashes |
| `DirectMap.DirectMapper.RamEntry` | loader/boot_protocol/ultra.c:1242-1266 | a visit extends the pending run or flushes it, as the fold of the entries visited says; without a flush above the first huge page it takes no page; which types count is in `RamByType` |
| `DirectMap.DirectMapper.MapLowSmallPages` | loader/boot_protocol/ultra.c:1275-1295 | the first huge page appears in small pages, with the guard page left out below |
| `DirectMap.DirectMapper.FinalFlush` | loader/boot_protocol/ultra.c:1374-1374 | the last run is added |
| `DirectMap.DirectMapper.Build` | loader/boot_protocol/ultra.c:1366-1374 | over every list of entries visited, every virtual address translates as the pieces of its runs say; it fails only without pages, or at the huge-page check when runs clash, and succeeds only when none do |
| `DirectMap.DirectMapIsRam` | loader/boot_protocol/ultra.c:1186-1240 | for page-aligned RAM in order, the direct map above the first huge page is exactly the RAM bytes below the limit, by a huge page exactly where all of it is RAM |
| `DirectMap.DirectMapIsPages` | loader/boot_protocol/ultra.c:1186-1240 | for RAM of any alignment, a byte is mapped, at its own offset, exactly when its page holds a byte of RAM |
| `LiveWalk.ExactIff` | loader/arch/x86/bios/bios_memory_services.c:391-400 | a walk over a map that changes under it visits exactly the RAM, in order, if and only if no visit changes the RAM at or before its index |
| `LiveBuild.DrawKeepsRam` | loader/virtual_memory.c:19-36 | taking a table page keeps the set of RAM bytes, page alignment and canonical form |
| `LiveBuild.PoolExists` | loader/virtual_memory.c:19-36 | for every memory map the pages that repeated requests return are finitely many, distinct and aligned |
| `LiveBuild.DrawPages` | loader/arch/x86/bios/bios_memory_services.c:175-215 | the pages a step took are carved out of the map one by one, and the rest of the pool is what the map will hand out next; it halts exactly when one of the carvings lacks slots |
| `LiveBuild.VisitEntry` | loader/arch/x86/bios/bios_memory_services.c:391-400 | one visit reads the entry the live map has at the index, and leaves the map alone when it flushes nothing; the map is full exactly when a page it took had no slots |
| `LiveBuild.Build` | loader/boot_protocol/ultra.c:1366-1374 | the whole build over the live map: the translation is that of the entries visited, the walk is one over a changing map, and it stops only without pages, when runs of the visited entries clash, or without slots in the map, which is exactly when a page taken on the way had none; when the RAM above the first huge page is one stretch, no visit disturbs the walk and the huge-page check is never met |
| `LiveBuild.BuildPageTable` | loader/boot_protocol/ultra.c:1341-1374 | the same from an empty table on, with the pages of the root taken from the map as well; without a table exactly when there are too few pages for the root |
| `LiveBuild.NoFlush` | loader/boot_protocol/ultra.c:1242-1266 | over RAM that is one stretch above the first huge page no visit flushes anything there |
| `LiveBuild.StretchNoClash` | loader/virtual_memory.c:69-89 | and its runs meet no huge page, for any alignment |
| `LiveBuild.UndisturbedNoClash` | loader/arch/x86/bios/bios_memory_services.c:391-400 | a walk that disturbs nothing behind it does not meet the huge-page check on page-aligned RAM |
| `LiveBuild.UndisturbedIsRam` | loader/boot_protocol/ultra.c:1366-1374 | and builds the direct map of the RAM there was at the start |
| `LiveBuild.ShrinksByDraw` | loader/arch/x86/bios/bios_memory_services.c:105-173 | a map whose highest free page merges into the entry above |
| `LiveBuild.DisturbedExample` | loader/arch/x86/bios/bios_memory_services.c:391-400 | a walk over that map in which the pages of a flush, of any number above 0, come off the entry being visited, and a later run meets the huge page just mapped |
| `RamTypes.RamByType` | loader/boot_protocol/ultra.c:1150-1167 | a byte is RAM exactly when its type is 1, 3, 4 or at least 0xFFFEFFFF |
| `RamTypes.MappedByType` | loader/boot_protocol/ultra.c:1186-1266 | of a page-aligned map, above the first huge page, exactly the bytes of these types below the limit are translated, so never those of types 2 and 5 to 9 |
| `RamTypes.MappedByPage` | loader/boot_protocol/ultra.c:1186-1266 | for any alignment, exactly the bytes on a page that holds such a byte |
| `RamTypes.IdentityByType` | loader/boot_protocol/ultra.c:1186-1213 | the same of the identity map, below its limit |
| `RamTypes.LowMemory` | loader/boot_protocol/ultra.c:1275-1295 | the first huge page is mapped in small pages whatever its types, below as well but for the guard page |
| `RamTypes.LiveByType` | loader/boot_protocol/ultra.c:1366-1374 | over the live map, the types there were at the start decide, when no visit disturbs the walk |
| `RamTypes.TakenIsBacked` | loader/arch/x86/bios/bios_memory_services.c:175-215 | giving free memory a type above 9 keeps the set of RAM bytes if and only if the type is at least 0xFFFEFFFF |
| `RamTypes.TopDownTakes` | loader/arch/x86/bios/bios_memory_services.c:175-215 | an allocation below an aligned limit is such a change of type |
| `RamTypes.ExactTakes` | loader/arch/x86/bios/bios_memory_services.c:297-303 | so is one of whole pages at an address |
| `RamTypes.Allocate` | loader/arch/x86/bios/bios_memory_services.c:289-295 | an allocation on the live map is refused for types up to 9, and keeps the set of RAM bytes if and only if its type is at least 0xFFFEFFFF |
| `RamTypes.AllocationIsMapped` | loader/boot_protocol/ultra.c:1150-1167 | so every byte of an allocation of the loader or the protocol is translated by a direct map built after it |
| `RamTypes.ProcessorSees` | loader/boot_protocol/ultra.c:1341-1374 | and an x86 processor in the mode of the tables reaches exactly the RAM below the limit through the direct map, writable and cached |
| `MemoryMap.CanonicalUnique` | loader/arch/x86/bios/bios_memory_services.c:159-167 | a compressed map is the only compressed map with its meaning |
| `MemoryMap.CompactedMeaning` | loader/memory_services.c:358-429 | compaction of an ordered list is canonical and has the resolved type at every address |
| `MemoryMap.ResolveTwice` | loader/memory_services.c:52-70 | resolving a type twice is resolving it once |
| `MemoryMap.ResolvedTypes` | loader/memory_services.c:52-70 | by the numbers: free comes from free, or from loader memory given up; types up to 9 that are not known become reserved (2); known and protocol types stay |
| `MemoryMap.Sort` | loader/memory_services.c:459-479 | the first entries in order of base, the same entries, nothing else moved |
| `MemoryFixup.DoFixup` | loader/memory_services.c:358-429 | the in-place two-index loop leaves exactly the compacted list |
| `MemoryFixup.SortAndFixup` | loader/memory_services.c:431-457 | any list without overlaps becomes the canonical map with the resolved type at every address: by the numbers, a byte is free exactly when it was, or was loader memory that is given up, unknown types up to 9 become reserved, the rest keep theirs, and no byte appears or vanishes |
| `MemoryFixup.PermutedMeaning` | loader/memory_services.c:459-479 | the order of entries without overlaps does not matter for their meaning |
| `MemoryFixup.Insert` | loader/memory_services.c:197-216 | the entry goes in at its index, later ones move up |
| `MemoryFixup.FindFirstThatContains` | loader/memory_services.c:218-251 | the binary search finds the entry holding the value, or the first one above it when allowed, or nothing, as a linear search would |
| `MemoryFixup.AlignStaysInside` | loader/memory_services.c:109-126 | aligning a free range stays inside it if and only if its base was aligned or nothing is left |
| `MemoryFixup.AlignLeavesRangeExample` | loader/memory_services.c:109-126 | a free range that alignment moves below its own start |
| `MemoryFixup.OverlapHigherWins` | loader/memory_services.c:128-195 | for two overlapping entries the pieces are in order and the higher type wins at every address |
| `BiosAllocator.BiosMemory.EmplaceAt` | loader/arch/x86/bios/bios_memory_services.c:16-24 | inserts, or halts exactly when the buffer is full |
| `BiosAllocator.CompactSuffix` | loader/arch/x86/bios/bios_memory_services.c:159-172 | compressing only a suffix makes the whole map canonical and keeps its meaning |
| `BiosAllocator.CarveMerged` | loader/arch/x86/bios/bios_memory_services.c:130-157 | the merge-with-next shortcut gives the canonical map with the meaning of the full carving |
| `BiosAllocator.BiosMemory.AllocateOutOf` | loader/arch/x86/bios/bios_memory_services.c:105-173 | the map stays canonical and exactly the new range changes type, but for free remainders below a page, which are dropped; halts exactly when the range does not fit the entry or the buffer lacks the free slots the carving needs |
| `BiosAllocator.InOneEntry` | loader/arch/x86/bios/bios_memory_services.c:159-167 | bytes of one type in a row lie in one entry of a compressed map |
| `BiosAllocator.BiosMemory.FindBelow` | loader/arch/x86/bios/bios_memory_services.c:185-205 | the entry of the highest all-free window under the limit, or proof that there is none |
| `BiosAllocator.BiosMemory.FindWithin` | loader/arch/x86/bios/bios_memory_services.c:239-272 | the entry of the lowest all-free window between the limits, or proof that there is none |
| `BiosAllocator.BiosMemory.AllocateTopDown` | loader/arch/x86/bios/bios_memory_services.c:175-215 | takes the highest all-free window under the limit; returns 0 with the map unchanged exactly when there is none; halts exactly on a bad size or without the free slots for that window |
| `BiosAllocator.BiosMemory.AllocateWithin` | loader/arch/x86/bios/bios_memory_services.c:217-287 | takes the lowest all-free window between the limits, or leaves the map unchanged when there is none; halts exactly on a bad size, bad limits or without free slots |
| `BiosAllocator.BiosMemory.AllocatePages` | loader/arch/x86/bios/bios_memory_services.c:289-295 | top-down allocation, for types above 9 only, with the same exact halts |
| `BiosAllocator.BiosMemory.AllocatePagesAt` | loader/arch/x86/bios/bios_memory_services.c:297-303 | takes the range exactly when every byte of it is free; halts exactly on a bad type, size or range, or without free slots |
| `BiosAllocator.BiosMemory.FreePages` | loader/arch/x86/bios/bios_memory_services.c:305-322 | the range becomes free and no other byte changes; accepted exactly when the range has one type that is not free and the buffer has the slots; for a byte count of 0, what `FreeNothing` says |
| `BiosAllocator.BiosMemory.FreeNothing` | loader/arch/x86/bios/bios_memory_services.c:305-322 | a free of no bytes is accepted exactly inside an entry that is not free when the buffer has the slots, and either changes nothing or leaves one empty free entry, exactly as said |
| `BiosAllocator.EmptyFreedMeaning` | loader/arch/x86/bios/bios_memory_services.c:105-173 | such a free keeps the type of every address, and the map is still canonical if and only if it is unchanged |
| `BiosAllocator.EmptyFreeExample` | loader/arch/x86/bios/bios_memory_services.c:305-322 | 2^20 pages count as no bytes, and freeing them puts an empty entry in front of another |
| `BiosAllocator.BiosMemory.AllocateThenFree` | loader/arch/x86/bios/bios_memory_services.c:289-322 | freeing what was just allocated restores the entry array element for element if and only if no remainder below a page was dropped, as none is with page-aligned free memory and limit; with four free slots neither call halts on a good size |
| `BiosAllocator.FreeRestores` | loader/arch/x86/bios/bios_memory_services.c:105-173 | in general it is restored if and only if no remainder was dropped |
| `BiosAllocator.FreeLosesExample` | loader/arch/x86/bios/bios_memory_services.c:175-215 | an allocation under an unaligned limit after which the free does not restore the map |
| `BiosAllocator.RoomAt` | loader/arch/x86/bios/bios_memory_services.c:16-24 | a carving has room exactly when the buffer has the free slots that its pieces need, two at most |
| `BiosAllocator.HighestAligned` | loader/arch/x86/bios/bios_memory_services.c:175-215 | the highest window under an aligned limit is page aligned |
| `BiosAllocator.RetypedKeeps` | loader/arch/x86/bios/bios_memory_services.c:105-173 | changing the type of whole pages keeps free entries page aligned and loses no byte of the map |
| `BiosAllocator.BiosMemory.Run` | loader/arch/x86/bios/bios_memory_services.c:289-322 | any list of allocations and frees: every map on the way is canonical, neighbours differ by exactly the requested step, and it stops exactly at the first request that is refused or lacks slots, or that leaves an empty entry; with aligned requests every map has the same extent and aligned free entries |
| `BiosAllocator.SizeCheckExact` | loader/arch/x86/bios/bios_memory_services.c:175-185 | the size check accepts a right byte count if and only if the page count is between 1 and 2^20 - 1 |
| `BiosAllocator.SizeCheckMissesOverflow` | loader/arch/x86/bios/bios_memory_services.c:175-185 | a page count whose byte count wraps and still passes |
| `FatTable.ChainUnique` | loader/filesystem/fat/fat.c:354-422 | a table has at most one chain from a cluster |
| `FatTable.ChainHasNoRepeats` | loader/filesystem/fat/fat.c:354-422 | a chain that ends repeats no cluster |
| `FatTable.ChainFitsSixteenBits` | loader/filesystem/fat/fat.c:295-306 | clusters and offsets of a FAT12 or FAT16 chain fit 16 bits |
| `FatTable.TableReader.EnsureCached` | loader/filesystem/fat/fat.c:206-257 | after success the view holds the entry as it is on disk; fails only with a disk read or a refused view allocation |
| `FatTable.TableReader.EntryAt` | loader/filesystem/fat/fat.c:259-293 | the decoded entry is the one on disk, by its bytes: the low 28 bits of four, two, or its half of three, lowest first; or the bad-cluster value after a failed read or a refused view |
| `FatTable.PackedPair` | loader/filesystem/fat/fat.c:259-270 | two FAT12 entries are together the number of their three bytes, each below 4096 |
| `FatTable.ChainIsOnDisk` | loader/filesystem/fat/fat.c:176-199 | a chain is a chain of the bytes on disk: each entry inside the table holds the next cluster, from 2 to below the bad mark, and the last a mark above it |
| `FatIndex.IndexExtend` | loader/filesystem/fat/fat.c:396-398 | a consecutive cluster lengthens the last range |
| `FatIndex.IndexAppend` | loader/filesystem/fat/fat.c:400-404 | any other cluster starts a new range |
| `FatIndex.CeilDivFull` | loader/filesystem/fat/fat.c:321-352 | the spill array is full exactly when the page count must grow by one |
| `FatIndex.FatFile.constructor` | loader/filesystem/fat/fat.c:777-792 | a file opens with an empty index |
| `FatIndex.FatFile.EmplaceRange` | loader/filesystem/fat/fat.c:321-352 | the range is appended across the in-place and spill arrays, or nothing changes and a page was refused |
| `FatIndex.FatFile.FreeChain` | loader/filesystem/fat/fat.c:308-319 | frees exactly the pages that are held |
| `FatIndex.NoNarrowing` | loader/filesystem/fat/fat.c:300-306 | storing a range of a terminating walk in 16 bits loses nothing |
| `FatIndex.FatFile.ComputeRanges` | loader/filesystem/fat/fat.c:354-422 | the index decodes to exactly the chain and the size is corrected to it; refused only for a broken or over-long chain, a failed read or a refused page |
| `FatIndex.FatFile.FindRangeIdx` | loader/filesystem/fat/fat.c:677-705 | the unsigned binary search finds the range an offset belongs to and never underflows |
| `FatIndex.FatFile.LookUp` | loader/filesystem/fat/fat.c:723-770 | the range and its successor on either side of the in-place boundary |
| `FatIndex.FatFile.GetRange` | loader/filesystem/fat/fat.c:723-770 | the location of the requested cluster, followed only by consecutive clusters of the chain, as many as asked for or up to the next jump; past the end of the chain, counted on from its last cluster |
| `FatIndex.OnwardIndexes` | loader/filesystem/fat/fat.c:746-767 | counting on from the end of the chain is what the index gives past it |
| `ReadProgress.MaskExact` | loader/filesystem/bulk_read.c:25-77 | the 16-bit block mask gives the offset in a block if and only if the block shift is at most 16 |
| `ReadProgress.MaskWrapsExample` | loader/filesystem/bulk_read.c:87-95 | a 128 KiB cluster in which it does not |
| `ReadProgress.WantedFacts` | loader/filesystem/bulk_read.c:17-23 | the wanted block count covers the bytes left, in 32-bit and in 64-bit size types, except where it wraps |
| `ReadProgress.RoundKeeps` | loader/filesystem/bulk_read.c:35-48 | from a request that does not wrap, a moderate answer makes progress to a request that does not wrap |
| `ReadProgress.RoundStays` | loader/filesystem/bulk_read.c:35-48 | from one that wraps, full answers lead only to requests that wrap, until no byte is taken |
| `ReadProgress.PartsCover` | loader/filesystem/bulk_read.c:99-117 | head, body and tail cover the request once; the body is whole blocks at a block boundary and the edges are below a block, or all of it is head |
| `ReadProgress.PartsSteady` | loader/filesystem/bulk_read.c:99-117 | no part wraps if and only if blocks are below 64 KiB, the offset is aligned, or the request ends before 4 GiB from its block |
| `ReadProgress.NoWrapIff` | loader/filesystem/bulk_read.c:17-23 | exactly how long a request may be from its place in a block without wrapping, in 32-bit and in 64-bit size types |
| `ReadProgress.SteadyBlocks` | loader/filesystem/bulk_read.c:99-117 | with blocks below 64 KiB no request wraps |
| `ReadProgress.SteadyBytes` | loader/filesystem/bulk_read.c:99-117 | no request of at most 2^32 - 131072 bytes wraps |
| `ReadProgress.SteadyBelow` | loader/filesystem/bulk_read.c:99-117 | with 64-bit sizes no request that ends below 4 GiB wraps, so none of a FAT file |
| `ReadProgress.UnsteadyWantsNone` | loader/filesystem/bulk_read.c:17-23 | below 4 GiB a request that wraps wants no block at all |
| `ReadProgress.StuckExample` | loader/filesystem/bulk_read.c:35-48 | a FAT file of 2^32 - 1 bytes in 64 KiB clusters, read from its second byte to its end with 32-bit sizes, wants no blocks; an ISO9660 file past 4 GiB on a disk with 64 KiB blocks has a second round that takes no byte |
| `BulkRead.ReadPiece` | loader/filesystem/bulk_read.c:53-68 | block and byte reads through the cache give the same bytes of the partition, when a byte read stays in its window; fails only at the end of the disk or with a disk read |
| `BulkRead.Ask` | loader/filesystem/bulk_read.c:39-42 | an answer of a callback or of the FAT index describes the file's blocks, wherever the table reads behind it leave the cache |
| `BulkRead.ReadRound` | loader/filesystem/bulk_read.c:36-73 | one round takes bytes of the file, or fails, or gets nowhere only after an immoderate answer or from a request that wraps, and always when no block is wanted |
| `BulkRead.DoBulkRead` | loader/filesystem/bulk_read.c:25-77 | the buffer holds the file's bytes, holes as zeros, when every read stays in its window; it ends, and fails only for an unreadable file or a refused range |
| `BulkRead.BulkReadFile` | loader/filesystem/bulk_read.c:79-129 | for every offset, length, pair of block sizes and lawful source, the buffer holds what reading each byte on its own gives when every read stays in its window, as it does for every safe request; nothing else of it changes; dies exactly on a bad request; stuck only for unsteady requests, on all of those with full answers, and on those that want no block |
| `BulkRead.SnugFitsAll` | loader/filesystem/block_cache.c:133-151 | a read fits every window if and only if it starts at a disk block or stays inside one |
| `BulkRead.HeadLeavesWindowExample` | loader/filesystem/bulk_read.c:99-108 | an unaligned head that leaves every window of the scratch buffer |
| `BulkRead.FatAnswersLawfully` | loader/filesystem/fat/fat.c:723-770 | every answer of the FAT index, for every wanted count, satisfies what the bulk reader relies on |
| `BulkRead.IsoAnswersLawfully` | loader/filesystem/iso9660/iso9660.c:127-135 | so do the answers for an ISO9660 file, which are always of the full wanted count |
| `BulkRead.ReadIsoFile` | loader/filesystem/iso9660/iso9660.c:137-140 | reading an ISO9660 file gives the bytes of its extent; it completes only for steady requests, gets stuck only for others, and never where the blocks of file and disk are below 64 KiB |
| `BulkRead.ReadFatFile` | loader/filesystem/fat/fat.c:772-775 | reading a FAT file through its range index, the bulk reader and the cache gives, for every byte, the byte of its cluster, two clusters less than its number behind the start of the data, in the chain or counted on behind it; all of the request is in the chain after an earlier read or when the declared size is; after a read the size lies within the chain; stuck exactly on unsteady requests, so never with 64-bit sizes or up to 2^32 - 131072 bytes |
| `BulkRead.ClusterOfChain` | loader/filesystem/fat/fat.c:746-767 | the cluster of a block is that of the chain up to its end, and counted on from the last one behind it |
| `BulkRead.InsideChainIff` | loader/filesystem/fat/fat.c:746-767 | every byte of a request lies in a cluster of the chain if and only if the request ends inside the chain |
| `BulkRead.StaleSizeExample` | loader/filesystem/fat/fat.c:746-767 | a FAT16 volume with a chain of one cluster: a declared size of two clusters lets the second pass the bounds check, and it is the cluster behind the chain |
| `BulkRead.StaleRead` | loader/filesystem/fat/fat.c:772-775 | the first read of that second cluster, when it completes, delivers a cluster that is not of the file |
| `BlockCache.Cache.constructor` | loader/filesystem/block_cache.c:9-22 | a cache starts empty and coherent |
| `BlockCache.Borrow` | loader/arch/x86/bios/scratch_buffer.c:9-31 | a new owner of the scratch buffer empties the cache that owned it |
| `BlockCache.Cache.Refill` | loader/filesystem/block_cache.c:74-93 | the window matches the disk at the new base, or the cache is empty; it never moves while a reference is out |
| `BlockCache.Cache.Exec` | loader/filesystem/block_cache.c:133-164 | from any coherent state, also after failed refills, a request that fits its window delivers the disk's bytes, and any other exactly the shifted bytes that `Served` says; it ends |
| `BlockCache.Cache.ReadBlocks` | loader/filesystem/block_cache.c:178-204 | whole blocks of any number, past or through the window, are the disk's bytes |
| `BlockCache.Cache.ReadBytes` | loader/filesystem/block_cache.c:166-176 | the same for every byte range |
| `BlockCache.CopyStaysInWindow` | loader/filesystem/block_cache.c:133-151 | the first copy stays in the window if and only if the request is aligned or fits it |
| `BlockCache.CopyLeavesWindowExample` | loader/filesystem/block_cache.c:133-151 | a request whose copy passes the end of the window |
| `BlockCache.Cache.TakeRef` | loader/filesystem/block_cache.c:206-229 | the pointer covers the disk's bytes of the range |
| `BlockCache.Cache.ReleaseRef` | loader/filesystem/block_cache.c:231-235 | one reference fewer, and nothing else |
| `BlockCache.Cache.ReadUnderRef` | loader/filesystem/block_cache.c:74-93 | a borrowed pointer keeps matching the disk through any block reads made while it is held |
| `BiosDisks.DiskServices.constructor` | loader/arch/x86/bios/bios_disk_services.c:505-518 | the shared cache starts empty, owning the scratch buffer |
| `BiosDisks.DiskServices.Coherent` | loader/arch/x86/bios/bios_disk_services.c:263-295 | a cache that is not empty owns the scratch buffer, and the buffer holds the current disk's blocks at its base |
| `BiosDisks.DiskServices.SetCacheToDisk` | loader/arch/x86/bios/bios_disk_services.c:327-343 | another disk empties the cache, the same disk changes nothing |
| `BiosDisks.DiskServices.ReadBlocks` | loader/arch/x86/bios/bios_disk_services.c:346-352 | blocks of the named disk, or a failed disk read |
| `BiosDisks.DiskServices.ReadBytes` | loader/arch/x86/bios/bios_disk_services.c:354-360 | bytes of the named disk as its window serves them, or a failed disk read |
| `BiosDisks.SnugIsRight` | loader/filesystem/block_cache.c:133-151 | they are the bytes asked for when the range is aligned or inside one block |
| `BiosDisks.DiskServices.ReadFile` | loader/arch/x86/bios/bios_pxe_services.c:416-469 | succeeds exactly when what arrives up to the first short packet is a file of the expected size, and delivers it, for packets of 1 to 1456 bytes |
| `BiosDisks.SentFile` | loader/arch/x86/bios/bios_pxe_services.c:416-469 | a file sent as full packets and a last one that is not full arrives as that file, and nothing short of it is accepted |
| `BiosDisks.DiskServices.Run` | loader/arch/x86/bios/bios_disk_services.c:327-360 | in any interleaving of reads on any disks and transfers, whatever succeeds delivers the bytes of the disk or server it names, byte ranges as some window of that disk, no larger than its capacity, serves them, and disk requests fail only with a disk read |
| `ConfigTree.FlattenInjective` | loader/config.c:123-161 | the listing of items with depths determines the tree |
| `ConfigTree.ArrayIsTree` | loader/config.c:130-161 | reading the array through its links gives the one tree whose listing was emplaced |
| `ConfigTree.OffsetsExact` | loader/config.c:144-145 | the 16-bit offset of every value is its index if and only if no value sits at index 65536 or above |
| `ConfigTree.OffsetWrapsExample` | loader/config.c:144-145 | a list of 65537 values whose last one keeps offset 0 |
| `ConfigTree.Config.SetDepth` | loader/config.c:156-158 | the clearing loop, which stops at the first unused depth, clears every deeper one |
| `ConfigTree.Config.Emplace` | loader/config.c:130-161 | links, depth table and section offsets stay exact for every slot the depth rules allow |
| `ConfigTree.SiblingsListed` | loader/config.c:17-25 | following links visits exactly the later siblings, in order, and stops |
| `ConfigTree.ChildrenListed` | loader/config.c:858-885 | from the slot after a container, following links visits exactly its children, in order, and stops |
| `ConfigTree.Config.Find` | loader/config.c:793-821 | first and last match and the count, which is the number of matches cut at the maximum |
| `ConfigTree.MatchesAre` | loader/config.c:793-821 | the matches are exactly the values of the list with the key, in order |
| `ConfigTree.Config.GetLoadableEntry` | loader/config.c:751-771 | the first section of that name in the whole configuration, or none has it |
| `ConfigTree.Config.GetNextOneOf` | loader/config.c:887-912 | the next sibling with the key and an accepted type, the mismatch that stops it, or proof that there is none |
| `ConfigTree.StraysIntoSection` | loader/config.c:887-912 | that sibling is a section if and only if no later value answers, and only at the top level |
| `ConfigTree.StrayExample` | loader/config.c:887-912 | a value whose next value is a section |
| `ConfigParser.Parser.ParseObjects` | loader/config.c:554-631 | a list of entries is emplaced as the grammar says, and every emplaced depth follows the depth rules |
| `ConfigParser.Parser.ParseConfig` | loader/config.c:633-713 | accepts, refuses or overruns the depth table exactly as the grammar says, and emplaces exactly its slots |
| `ConfigParser.ParsedSpells` | loader/config.c:554-713 | an accepted stream spells its slots one after the other: key, text, section name and depth of each are those of its tokens, and no token is left over |
| `ConfigParser.ListParses` | loader/config.c:554-631 | a printed list of entries parses to its listing, whatever follows |
| `ConfigParser.ConfigParses` | loader/config.c:633-713 | a printed configuration parses to its listing |
| `ConfigParser.ParsePrinted` | loader/config.c:633-713 | printed, parsed into the flat array and read back through the links, every configuration is itself |
| `ConfigParser.OverrunIff` | loader/config.c:606-624 | any stream leaves the depth table if and only if a value is indented to depth 16 or more behind a prefix that is a stream of its own |
| `ConfigParser.NestedTooDeep` | loader/config.c:609-612 | sixteen nested objects around a value do |
| `ConfigParser.EmptyObjectIff` | loader/config.c:567-590 | an accepted stream has an empty object if and only if an object's line is followed by an indentation and then a section or the end |
| `ConfigParser.EmptyObjectExample` | loader/config.c:567-590 | such a stream |
| `Numbers.OverflowCheck` | loader/common/conversions.c:46-48 | the one check holds if and only if the digit is below the base and nothing wraps |
| `Numbers.ParseDigits` | loader/common/conversions.c:30-54 | accepts a string if and only if all digits are below the base and the value fits 64 bits, and gives the value |
| `Numbers.StrToU64` | loader/common/conversions.c:56-63 | the value behind sign and prefix, or a refusal |
| `Numbers.StrToUnsigned` | loader/common/conversions.c:114-177 | narrower variants accept exactly the values that fit |
| `Numbers.ReadForms` | loader/common/conversions.c:4-28 | without a given base, `0x`, `0b`, `0` and a first digit above 0 announce 16, 2, 8 and 10, a minus is refused and a plus skipped |
| `Numbers.NumeralValue` | loader/common/format.c:91-104 | printed digits mean the number and start with no zero |
| `Numbers.FillDigits` | loader/common/format.c:91-104 | the representation buffer, filled from its end, holds the digits and never runs out |
| `Numbers.Represent` | loader/common/format.c:91-121 | prefix and digits, with room for any 64-bit value |
| `Numbers.Output.WriteMany` | loader/common/format.c:36-44 | the buffer holds as much of the text as fits, the rest is counted |
| `Numbers.Output.WritePadding` | loader/common/format.c:55-66 | pads to the width |
| `Numbers.Output.WriteInteger` | loader/common/format.c:70-130 | sign, padding, prefix and digits in the order the flags ask for |
| `Numbers.FormattedIsConversion` | loader/common/format.c:70-130 | the text is the one C prescribes: a minus from 2^63 on for signed numbers, digits that mean the number or its negative without a leading zero, the prefix, and padding to the width |
| `Numbers.DecimalRoundTrip` | loader/common/format.c:70-130 | every 64-bit number printed with `%llu` reads back |
| `Numbers.HexRoundTrip` | loader/common/format.c:112-116 | every 64-bit number printed with `%#llx` reads back |
| `Numbers.OctalRoundTrip` | loader/common/format.c:117-120 | every 64-bit number printed with `%#llo` reads back |
| `Numbers.UpperPrefixRefused` | loader/common/conversions.c:4-28 | no number printed with `%#llX` reads back |
| `Guids.HexField` | loader/common/format.c:336-343 | a padded field has its width in digits and means its value |
| `Guids.HexReadExact` | loader/filesystem/path.c:58-79 | a hexadecimal field is read as its value if and only if it does not begin with `0b` |
| `Guids.LowerCaseExample` | loader/filesystem/path.c:58-79 | a lower-case field read as something else |
| `Guids.TextRoundTrip` | loader/filesystem/path.c:81-103 | text of fields reads back as the fields, whatever follows |
| `Guids.WriteGuid` | loader/common/format.c:331-349 | the 36 characters of the GUID, none lost in the buffer of 37: upper-case digits of each field at its place and the four dashes |
| `Guids.ConsumeGuid` | loader/filesystem/path.c:81-103 | reads exactly when the text is long enough and every field reads, and stops after 36 characters |
| `Guids.PrintThenRead` | loader/common/format.c:331-349 | every GUID printed and read back is itself |
| `AttributeArray.BytesNeeded` | loader/boot_protocol/ultra.c:866-885 | the bytes of all attributes but the memory map's entries |
| `AttributeArray.PlanPages` | loader/boot_protocol/ultra.c:887-929 | whatever the map does between attempts, the chosen pages have room for the fixed part and the map; stops at the first attempt with room, or at a growth of a page of entries |
| `AttributeArray.FirstAttempt` | loader/boot_protocol/ultra.c:887-898 | the first attempt takes the fewest pages for the fixed part and two entries more than there are, with room for all the 24-byte entries they hold; each further one adds a page and 170 entries |
| `AttributeArray.Writer.Put` | loader/boot_protocol/ultra.c:842-855 | header and content at the cursor, zeros up to the size, nothing else |
| `AttributeArray.WriteModules` | loader/boot_protocol/ultra.c:940-943 | all modules, in order |
| `AttributeArray.WriteAll` | loader/boot_protocol/ultra.c:931-974 | the attributes of the boot, in order, all inside the allocation, which is counted exactly |
| `AttributeArray.Build` | loader/boot_protocol/ultra.c:857-977 | an array is finished exactly when there is room for the final map; it lies in its pages and holds the attributes of the boot |
| `AttributeArray.Scan` | tests/kernel/kernel.c:734-812 | stepping by the header's size for the count of steps visits exactly the attributes, in order |
| `AttributeArray.BuildAndScan` | loader/boot_protocol/ultra.c:857-977 | what a kernel sees of a finished array is what was to be written, and in this order: platform, kernel, the modules one after the other, command line, framebuffer and APM information if any, the memory map, the UEFI map if any; each with its type and size, its content, and zeros up to the next multiple of 8 where it is padded |
| `AttributeArray.SeenInOrder` | tests/kernel/kernel.c:734-812 | that order, of any scan that sees the attributes |
| `AttributeArray.SizesAligned` | loader/boot_protocol/ultra.c:826-840 | every attribute is a multiple of 8 bytes |
| `AttributeArray.StartsAligned` | loader/boot_protocol/ultra.c:826-840 | so every attribute starts on an 8-byte boundary |
| `LongDivision.NextBit` | loader/gcc_builtins.c:21-28 | the next bit of the dividend enters the remainder without leaving 64 bits, also for divisors of 2^63 and more |
| `LongDivision.Divide` | loader/gcc_builtins.c:16-34 | quotient and remainder of long division |
| `LongDivision.UDivMod` | loader/gcc_builtins.c:43-83 | quotient and remainder on every path, for all 64-bit operands with a divisor above 0, and what a divisor of 0 gives |
| `LongDivision.ShiftLeftIsShift` | loader/gcc_builtins.c:98-123 | the shift of halves is the 64-bit shift, for every amount below 64 |

## Left out

- Overlaps over a whole memory map: only a pair of overlapping entries is resolved, since the loop over the map reads a flag before it is set and drops entries without moving the rest.
- `services_release_resources` and the dirty flag of the memory map: the final memory map is a parameter of `Build`.
- Entries whose end passes 2^64: ends are unbounded sums.
- MemoryFixup.SortAndFixup: a type between 10 and 0xFFFEFFFE halts the code and counts as unknown here.
- MmuArm.ArmFinds: for tables with addresses below 2^48, the width of the entries' address field.
- Reserved bits of entries above the physical address width, and what depends on the PAT and MAIR registers beyond their index 0.
- `map_copy_root_entry` and the trampoline mappings after it: they share tables, so no later mapping may touch those slots.
- BulkRead.BulkReadFile: block sizes up to 64 KiB, for which the block mask is exact.
- BulkRead.ReadFatFile: the table reads of the range index have their own disk access in `FatTable`; on the cache they only move the window.
- AttributeArray.Build: without room for the final memory map it ends without an array, where the code goes on with entries it did not copy; nothing is allocated between the last count and the final map.
- AttributeArray.BuildAndScan: likewise only with that room.
- LiveBuild.BuildPageTable: `pages` is the list of pages the map will hand out, which `PoolExists` shows there always is; the kernel's own mappings after the direct map are not part of it.
- LiveBuild.DisturbedExample: the pages are taken by the step of the walk, not by a run of the builder; that mapping a tail where there is no table takes a page is `MapPages`.
- Reads past the end of a disk are failed reads, also when only the end of a cache window lies there.
- Text to tokens: the configuration parser starts from fetched tokens, an indentation with its level; the classification of values is a parameter.
- Format strings: conversions are given as flag records, and other conversions than integers and GUIDs are left out.
- Signed parsing and IPv4 addresses.
- The layout of the protocol's structures: the protocol header is not part of this model; a header is two 32-bit words, a memory map entry 24 bytes, other structures and type numbers are parameters.
- Integer width of the attribute array's sizes: the total is assumed to fit 32 bits.
- ISO9660 beyond the ranges of a file, long FAT names, partition tables, ELF loading, video, APM, UEFI services and handover code.
