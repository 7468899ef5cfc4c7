# FLOS kernel core: a Dafny model

This project models the hard core of an operating system and its image builder, and proves what
that code is for. Each part is written in the form of its source: in-place algorithms are classes
and methods over arrays, each proved against a specification on values, and the laws are lemmas
about those specifications.

**The kernel memory stack** (`Bits`, `Paging`, `PageTables`, `FreeLists`, `Promotion`,
`CallerBuffer`, `PhysicalMemory`, `VirtualMemory`, `Mappings`, `Converter`, `Releases`, `Policy`). A four-level
page table is built in place and read back by a separate walker; `Translate` is the reference, the
translation the processor makes in 4-level paging, and never looks at how the tables were built.
Three free lists (4 KiB, 2 MiB, 1 GiB) steal from each other. One measure carries the proofs: how
often an address is covered, by free entries, by page tables and by handed-out frames. `Kernel.Valid`
says that this account never changes, that the tables are a tree, and that every range handed out
translates to its own frames; every public call that succeeds keeps it, so it holds over every run. Faults are
outcomes: no physical memory, metadata buffer full, caller's buffer overrun, too large a request, region
exhausted or overshot.

**The buddy allocator** (`Buddy`): headers split and merged in place, with the tiling of the section
and the set of blocks in use as its meaning.

**The hash containers** (`StringSet`, `Trie`, `TrieIterator`, with `Texts`): an open-addressed set, a
numbering trie, and the trie's iterator with a stack and a free list of its own. All are proved for an
arbitrary hash function.

**The memory primitives** (`Manipulation`): `memcpy`, `memmove` and `memset` with overlapping wide
stores against the byte-by-byte definition, on an array indexed by address.

**Smaller cores**: the KERNEL.INF writer and reader of two programs (`KernelInfo`), the table-driven
checksum (`Crc32`) against the bit-at-a-time CRC of section 8 of RFC 1952, and the terminal's rings of
characters and line starts (`LineRing`).

Where a promise does not hold of the code as it is, the code is modelled as it is, one lemma gives a
concrete input, and another gives the exact condition:

- the frame mask of `getPhysicalAddressFrame` ends at bit 47, although entries hold frames up to bit 51 (`FrameCanBeLost`, `FrameReadBack`);
- promotion removes pages from the front of a run and promotes its back, so frames are lost unless the run starts on a boundary (`PromotionCanLoseAFrame`, `PromoteKeepsFramesIff`);
- promotion steps past an entry that was swapped into the slot just handled, so runs that hold a whole larger page can stay behind (`PromotionCanSkip`, `PromotesAllExactly`);
- a contiguous steal can leave a zero-page entry (`ContiguousLeavesEmptyEntry`, `ContiguousKeepsNonEmpty`), after which a request can return more runs than pages (`EmptyEntryAddsRun`, `RunsFitIffTailsRich`) and even write past the 512 slots `allocAndMapExplicit` has on its stack (`RunOverruns`; `WritesPastExactly` and `OverrunExactly` say from the lists when, and such a call ends in `Overrun`);
- an outgrown metadata buffer is recorded in the unit of the growing manager (`GrowthEntryCoversTooMuch`, `GrowthEntryCoversBuffer`);
- the count of pages in `allocAndMapExplicit` and the ceiling division in `allocAndMap` can wrap (`RequestCanWrap`, `RequestedBytes`; `ChosenCanWrap`, `ChosenCovers`);
- the assertions of `getVirtualMemory` can pass for a range that overshoots the region (`RegionAssertionCanMiss`, `GuardDecides`). They are compiled in only with `DEBUG` (projects/shared/code/assert/include/shared/assert.h:36-38); without it nothing stops an overshoot. `Kernel` carries that choice as `debug`, and such a call ends in `Overshot`. The debug case describes a build the sources do not make yet: projects/x86/memory/virtual/code/src/virtual.c:46 asserts an identifier that is declared nowhere;
- `freeMapped` frees memory behind its range, since it frees a page whole that the range only touches, and at a boundary even for a range of no bytes (`EmptyRangeFreesPage`, `FreedInRange`);
- inserting the empty string counts it without storing it (`EmptyStringMiscounts`, `StringSet.Table.Insert`);
- the overlap test of `memmove` takes `memcpy` for every length above 2^63 (`HugeOverlapTakesMemcpy`, `OverlapTest`);
- the doubled request of `splitBuddy` can wrap (`DoublingCanWrap`, `DoublingTest`).

`dafny verify dfyconfig.toml` checks the whole project.

## Model

| member | source | states |
|---|---|---|
| `Bits.AlignUpIsCeiling` | projects/shared/code/maths/include/shared/maths/maths.h:14-15 | the mask form of align-up is the least multiple at or above the value, for every power of two whose addition does not wrap |
| `Bits.AlignDownIsFloor` | projects/shared/code/maths/include/shared/maths/maths.h:16-18 | the mask form of align-down drops the remainder |
| `Bits.CeilDivIsCeiling` | projects/shared/code/maths/include/shared/maths/maths.h:21-29 | add, wrap and shift by the trailing zeros is the ceiling of the quotient, as long as the addition does not wrap |
| `Bits.RingRangeIsMod` | projects/shared/code/maths/include/shared/maths/maths.h:33 | the mask is the remainder |
| `PageTables.LeafEntryFields` | projects/x86/memory/virtual/code/src/virtual.c:65-71 | the value stored in a leaf slot is present, has the size bit exactly for larger pages or where the flags ask for it, and its target field is the frame, for every aligned frame and flags below bit 12 |
| `PageTables.LeafBitsAre` | projects/x86/memory/virtual/code/src/virtual.c:65-71 | bit by bit: an entry carries the present and writable bits, the flags asked for, and the size bit of larger pages, nothing else |
| `PageTables.PointerEntryFields` | projects/x86/memory/virtual/code/src/virtual.c:72-77 | the value stored in a slot above is the frame with the present and writable bits and nothing else, and its target field is the frame |
| `PageTables.FrameReadBack` | projects/x86/memory/policy/code/src/virtual.c:56-58 | the frame mask ends at bit 47, so the frame read back is the frame mapped if and only if it lies below 2^48 |
| `PageTables.FrameCanBeLost` | projects/x86/memory/policy/code/src/virtual.c:56-58 | the frame at 2^48 is not read back |
| `PageTables.NoSharedTables` | projects/x86/memory/virtual/code/src/virtual.c:72-81 | in the tree every mapping step keeps, two slots that point to the same table are the same slot |
| `PageTables.LinkKeepsTree` | projects/x86/memory/virtual/code/src/virtual.c:72-77 | storing a pointer to a zeroed frame that is no table yet keeps the tree and changes the translation of no address |
| `PageTables.LeafKeepsTree` | projects/x86/memory/virtual/code/src/virtual.c:64-71 | writing a leaf maps exactly the addresses of that page to the new entry and leaves every other translation alone |
| `PageTables.TranslateReads` | projects/x86/memory/policy/code/src/virtual.c:91-106 | the translation of an address reads only the slots on its own path |
| `PageTables.WalkAgrees` | projects/x86/memory/policy/code/src/virtual.c:84-110 | the walker, which ignores present bits, returns what the processor translates for every mapped address |
| `VirtualMemory.FreshFrame` | projects/x86/memory/virtual/code/src/virtual.c:28-33 | a base page taken from the free lists is not a page table, given that no address is accounted for twice |
| `VirtualMemory.TableTakesFrame` | projects/x86/memory/virtual/code/src/virtual.c:72-77 | a frame that becomes a table moves from free to table, so the sum of both stays the same at every address |
| `VirtualMemory.AddressSpace.GetZeroBasePage` | projects/x86/memory/virtual/code/src/virtual.c:28-33 | returns a zeroed frame that was free and is no table; it fails only with no free page left in any manager or a full metadata buffer |
| `VirtualMemory.AddressSpace.LinkTable` | projects/x86/memory/virtual/code/src/virtual.c:72-77 | an empty slot gets a fresh table: tree kept, translations unchanged, memory account unchanged |
| `VirtualMemory.AddressSpace.Descend` | projects/x86/memory/virtual/code/src/virtual.c:60-82 | one level of the descent follows the slot or fills it first, keeping all invariants and translations |
| `VirtualMemory.AddressSpace.MapPage` | projects/x86/memory/virtual/code/src/virtual.c:57-82 | maps one page: exactly the addresses of that page change their translation; it fails only where the table for its leaf is missing and none can be had |
| `VirtualMemory.AddressSpace.MapVirtualRegionWithFlags` | projects/x86/memory/virtual/code/src/virtual.c:42-84 | after success every translation is the old one, changed on exactly the n pages asked for to consecutive frames; tables stay a tree disjoint from free memory; it fails only where a page asked for has no table for its leaf and none can be had |
| `VirtualMemory.AddressSpace.GetMappedPage` | projects/x86/memory/policy/code/src/virtual.c:84-110 | the loop returns the functional walk, and for every address the processor can translate, that translation |
| `VirtualMemory.WalkFindsMapped` | projects/x86/memory/policy/code/src/virtual.c:84-110 | after mapping, the walker finds for every address inside page k the page size asked for and, below 2^48, frame pageStart + k * size |
| `FreeLists.DecreaseTakesFront` | projects/x86/memory/physical/code/src/physical.c:37-48 | shrinking or swap-removing an entry takes exactly its front pages out of the list, at every address |
| `FreeLists.ContiguousConserves` | projects/x86/memory/physical/code/src/physical.c:88-121 | contiguous allocation through any number of steals moves exactly the returned run out of the free lists and keeps every entry aligned to its manager |
| `FreeLists.ContiguousFaults` | projects/x86/memory/physical/code/src/physical.c:88-121 | it faults if and only if no manager of this size or larger holds one run long enough |
| `FreeLists.PagesConserve` | projects/x86/memory/physical/code/src/physical.c:123-180 | non-contiguous allocation returns runs that total the request and are exactly what left the free lists |
| `FreeLists.PagesFault` | projects/x86/memory/physical/code/src/physical.c:123-180 | allocation of n >= 1 pages faults if and only if the free pages of this and all larger sizes, in this unit, are fewer than n |
| `FreeLists.StealServes` | projects/x86/memory/physical/code/src/physical.c:152-172 | what was stolen always serves the rest of the request, so the second attempt never steals again |
| `FreeLists.TakesFromEnd` | projects/x86/memory/physical/code/src/physical.c:131-145 | what a list that holds the request gives: its last entries whole, last one first, then the front of the entry before them; everything before that entry stays in place |
| `CallerBuffer.OwnListServes` | projects/x86/memory/physical/code/src/physical.c:131-145 | a request its own list holds is served from it, and the other lists stay as they are |
| `CallerBuffer.FullNeedsSteal` | projects/x86/memory/physical/code/src/physical.c:147-172 | such a request never finds a metadata buffer full, and a request for huge pages never does either |
| `CallerBuffer.LargeFullExactly` | projects/x86/memory/physical/code/src/physical.c:147-172 | for large pages, from the lists alone: the metadata buffer is found too short if and only if the large list does not hold the request, the huge list holds the rest, and its last entries, as many as the buffer has slots, do not |
| `CallerBuffer.FullNeedsEntries` | projects/x86/memory/physical/code/src/physical.c:147-172 | for every size: it is found too short only when the larger lists have more entries than the buffer of the own size has slots, or the huge list more than that of the large size |
| `CallerBuffer.OwnRunServes` | projects/x86/memory/physical/code/src/physical.c:88-98 | a contiguous request that an entry of its own list holds is served from the front of the first such entry |
| `CallerBuffer.ContiguousFullExactly` | projects/x86/memory/physical/code/src/physical.c:99-121 | from the lists alone: a contiguous request finds a buffer without room for what is left of a larger page if and only if its own list has no run, a larger one has, and a list below the one that serves it is full |
| `FreeLists.PagesFitBuffer` | projects/x86/memory/physical/code/src/physical.c:126-145 | with no empty free entry, at most one run per requested page |
| `FreeLists.ContiguousKeepsNonEmpty` | projects/x86/memory/physical/code/src/physical.c:99-110 | for lists without empty entries, a contiguous allocation leaves none if and only if a long enough run is met before the request is a whole number of larger pages, at every size |
| `FreeLists.ContiguousLeavesEmptyEntry` | projects/x86/memory/physical/code/src/physical.c:105-110 | the witness: 512 base pages out of one large page leave a zero-page entry |
| `FreeLists.EmptyEntryAddsRun` | projects/x86/memory/physical/code/src/physical.c:131-145 | a concrete list with such an entry for which a request for one page returns two runs |
| `FreeLists.RunsFitIffTailsRich` | projects/x86/memory/physical/code/src/physical.c:131-145 | every request one list can serve returns at most one run per page if and only if every proper tail of the list holds at least as many pages as entries |
| `CallerBuffer.SlotsBound` | projects/x86/memory/physical/code/src/physical.c:130-172 | the slots of the caller's buffer a call writes, stolen runs included, are at least the runs it returns and at most the free entries of this and all larger sizes |
| `CallerBuffer.SecondAttemptFits` | projects/x86/memory/physical/code/src/physical.c:164-172 | the second attempt writes no further than the stolen runs did |
| `CallerBuffer.TakesMoreThan` | projects/x86/memory/physical/code/src/physical.c:131-145 | a list gives more than r entries if and only if it has more and its last r do not hold the request |
| `CallerBuffer.WritesPastExactly` | projects/x86/memory/physical/code/src/physical.c:130-172 | from the lists alone, for every size, request and buffer: a call writes past the buffer if and only if, entries taken from the last to the first and size by size, as many as there are slots do not hold the request |
| `CallerBuffer.OverrunExactly` | projects/x86/memory/policy/code/src/policy.c:21-28 | with one page of metadata per manager, for the 512 slots on the stack, in one formula over the three free lists |
| `CallerBuffer.SlotsFit` | projects/x86/memory/physical/code/src/physical.c:149-155 | with no empty free entry the slots written, stolen runs included, are at most the pages requested |
| `CallerBuffer.OnePageFits` | projects/x86/memory/policy/code/src/policy.c:21-28 | with one page of metadata per manager the runs returned fit the 512 slots on the stack, and for large and huge pages so does every slot written |
| `CallerBuffer.RunOverruns` | projects/x86/memory/physical/code/src/physical.c:88-172 | a run of contiguous requests from 258 free huge pages that ends in a state with one page of metadata per manager where a request for one base page writes past 512 slots |
| `FreeLists.RunConserves` | projects/x86/memory/physical/code/src/physical.c:88-215 | over every run of the three calls, free plus held memory never changes at any address and every free entry stays aligned |
| `FreeLists.RunKeepsDisjoint` | projects/x86/memory/physical/code/src/physical.c:88-215 | over every run from a state without overlap, held runs never overlap each other |
| `FreeLists.RunKeepsHeldApart` | projects/x86/memory/physical/code/src/physical.c:88-215 | over every such run, no held run overlaps free memory |
| `FreeLists.ContiguousPages` | projects/x86/memory/physical/code/src/physical.c:88-121 | a contiguous allocation takes exactly its pages from the pages available in its unit, through any steals |
| `FreeLists.GrowthEntryCoversBuffer` | projects/x86/memory/physical/code/src/physical.c:193-195 | the entry recorded for an outgrown metadata buffer covers exactly that buffer if and only if the manager is the base one |
| `FreeLists.GrowthEntryCoversTooMuch` | projects/x86/memory/physical/code/src/physical.c:193-195 | in the large manager the entry of a one-page buffer covers the next page too |
| `FreeLists.BaseGrowthConserves` | projects/x86/memory/physical/code/src/physical.c:185-201 | growth of the base manager from a run in its own list: free memory plus the buffer is the same at every address, entries stay aligned, and the new buffer has room |
| `PhysicalMemory.MemoryManager.DecreasePages` | projects/x86/memory/physical/code/src/physical.c:37-48 | the in-place array update computes the list with the front of one entry removed |
| `PhysicalMemory.MemoryManager.TakeFromEnd` | projects/x86/memory/physical/code/src/physical.c:131-145 | the loop that empties the list from its end returns the runs and the list of the specification, and runs past the buffer if and only if there are more runs than slots |
| `PhysicalMemory.MemoryManager.FreePhysicalPages` | projects/x86/memory/physical/code/src/physical.c:182-205 | appends the entries, or reports that the metadata buffer is full |
| `PhysicalMemory.PhysicalMemoryManagers.AllocContiguousPhysicalPages` | projects/x86/memory/physical/code/src/physical.c:88-121 | the three arrays after the call are those of the specification, with the same address or fault |
| `PhysicalMemory.PhysicalMemoryManagers.AllocPhysicalPages` | projects/x86/memory/physical/code/src/physical.c:123-180 | the arrays after the call are those of the specification, with the same runs, fault or full buffer, and it runs past the caller's buffer if and only if it writes more slots than there are; the request is cut to 32 bits as in the code |
| `Promotion.RoundIsLighter` | projects/x86/memory/physical/code/src/physical.c:238-274 | every round of the promotion loop makes the rest of the walk lighter although it swaps, removes and appends entries, so the loop ends |
| `Promotion.PromoteKeepsOk` | projects/x86/memory/physical/code/src/physical.c:217-275 | only runs aligned to the larger page size reach the larger manager, and the lower list stays aligned |
| `Promotion.PromoteKeepsPages` | projects/x86/memory/physical/code/src/physical.c:217-275 | the total page count is conserved for every list |
| `Promotion.PromotesExactly` | projects/x86/memory/physical/code/src/physical.c:241-250 | a run is promoted if and only if it contains a whole larger page |
| `Promotion.PromotesAllOf` | projects/x86/memory/physical/code/src/physical.c:244-271 | a promoting round moves up every whole larger page from the first boundary on; the pieces that stay are each shorter than a larger page |
| `Promotion.PromotesAllExactly` | projects/x86/memory/physical/code/src/physical.c:238-274 | the walk leaves nothing that could be promoted if and only if it never steps over such an entry, which is one swapped or decreased into the slot just handled |
| `Promotion.PromotionCanSkip` | projects/x86/memory/physical/code/src/physical.c:238-252 | the witness: of two runs of one large page each the second is swapped into the slot of the first and stays |
| `Promotion.RoomForRunsFits` | projects/x86/memory/physical/code/src/physical.c:256-271 | a promotion succeeds whenever both metadata buffers have as many free slots as there are runs that hold a whole larger page |
| `Promotion.PromoteKeepsFramesIff` | projects/x86/memory/physical/code/src/physical.c:217-275 | the exact set of frames of a list without overlaps is conserved if and only if every run promoted starts on a larger-page boundary |
| `Promotion.LongRunsAligned` | projects/x86/memory/physical/code/src/physical.c:241-250 | a caller can check it beforehand: if every run of at least 512 pages starts on a boundary, no frame is lost |
| `Promotion.PromotionCanLoseAFrame` | projects/x86/memory/physical/code/src/physical.c:244-250 | 1023 pages from address 4096: promotion drops the first frame |
| `PhysicalMemory.PhysicalMemoryManagers.PromoteEntries` | projects/x86/memory/physical/code/src/physical.c:238-274 | the in-place loop computes the promotion of the specification, and succeeds if and only if every round finds room for its pieces |
| `PhysicalMemory.PhysicalMemoryManagers.InitPMM` | projects/x86/memory/physical/code/src/physical.c:217-275 | one contiguous base page becomes metadata, then the promotion of the specification happens to the two managers; it faults if and only if there is no such page |
| `PhysicalMemory.PhysicalMemoryManagers.InitManagers` | projects/x86/memory/physical/code/src/physical.c:351-352 | promotion to large and then to huge pages: it succeeds if and only if each finds its base page of metadata and room for its pieces; the lists left are those of the two promotions, and exactly two base pages are no longer available |
| `Converter.ConvertPreferredPageToAvailablePages` | projects/shared/code/memory/converter/src/converter.c:14-27 | the halving loop ends at the largest available page size not above the preferred one, and count times size is the number of bytes preferred, at least one base page |
| `Policy.Kernel.GetVirtualMemory` | projects/x86/memory/policy/code/src/virtual.c:31-45 | on 64-bit words: a debug build stops if and only if one of the four assertions fails, any other build never; else the aligned bump pointer is returned and moves past the range, modulo 2^64 |
| `Policy.Kernel.ReserveRange` | projects/x86/memory/policy/code/src/virtual.c:31-45 | a range of at most 512 pages: a debug build stops exactly when the guard fails; a range that fits is the next aligned one, lies behind all live ranges and maps nothing yet |
| `Policy.Kernel.Reserve` | projects/x86/memory/policy/code/src/policy.c:24-25 | the same for the start of an allocation: the address is the bump pointer aligned up to the page size, the pointer then stands right behind the pages, and the causes of a refusal and of an overshoot are exact |
| `Policy.RegionAssertion` | projects/x86/memory/policy/code/src/virtual.c:37-38 | the end-of-region assertion passes if and only if the range ends inside the region or overshoots its end by more than the distance from the region start to 2^64 |
| `Policy.GuardIs` | projects/x86/memory/policy/code/src/virtual.c:32-38 | the four assertions, for a range of at most 512 pages: the aligned start lies in the region, and the range ends in it or overshoots it by more than the distance from the bump pointer to 2^64 |
| `Policy.GuardDecides` | projects/x86/memory/policy/code/src/virtual.c:32-38 | the assertions tell ranges that end inside the region from others if and only if the range does not overshoot that far, which no range ending at or below 2^64 does |
| `Policy.RegionAssertionCanMiss` | projects/x86/memory/policy/code/src/virtual.c:37-38 | 512 large pages asked for 256 MiB before 2^64 pass, overshoot, and leave the bump pointer below the higher half |
| `Policy.RequestedBytes` | projects/x86/memory/policy/code/src/policy.c:13-25 | the range is as long as asked for if and only if the count of available pages fits in 64 bits |
| `Policy.RequestCanWrap` | projects/x86/memory/policy/code/src/policy.c:17 | 2^31 pages of 2^63 bytes become a request for no pages |
| `Policy.ChoosePages` | projects/x86/memory/policy/code/src/policy.c:42-60 | the loop settles on the page size and count of the specification |
| `Policy.ChosenSizeIs` | projects/x86/memory/policy/code/src/policy.c:42-60 | for every number of bytes: base pages up to 1 MiB, large pages up to 512 MiB, else huge pages; a request that wraps when rounded up to a size stops at that size |
| `Policy.ChosenCovers` | projects/x86/memory/policy/code/src/policy.c:42-60 | the pages chosen cover the bytes with less than a page to spare if and only if rounding up does not wrap |
| `Policy.ChosenCanWrap` | projects/x86/memory/policy/code/src/policy.c:57 | 2^64 - 1 bytes become a request for no pages |
| `Policy.Kernel.AllocAndMapExplicit` | projects/x86/memory/policy/code/src/policy.c:13-40 | a successful call hands out the range that starts at the bump pointer aligned up, moves the pointer right behind it, backs it in order by exactly the frames allocated for it, and keeps the kernel invariant; too large, refused by an assertion, overshooting the region unnoticed, writing past the 512 slots on the stack, no memory, full metadata and no page table each have their cause |
| `Policy.Kernel.AllocContiguousAndMap` | projects/x86/memory/policy/code/src/policy.c:62-84 | the same for one contiguous run, which needs no buffer |
| `Policy.Kernel.AllocAndMap` | projects/x86/memory/policy/code/src/policy.c:42-60 | the same as for allocAndMapExplicit, with the page size and count chosen for a number of bytes |
| `Policy.LiveRanges` | projects/x86/memory/policy/code/src/policy.c:13-84 | in every state the invariant admits, handed-out ranges are aligned and pairwise disjoint |
| `Policy.RangeTranslates` | projects/x86/memory/policy/code/src/policy.c:30-36 | every address of a handed-out range translates to the frame of its page at the page size of the range |
| `Policy.FramesExclusive` | projects/x86/memory/policy/code/src/policy.c:13-84 | no physical address backs two pages, and memory behind a page is neither free nor part of a page table |
| `Policy.PublishKeepsKernel` | projects/x86/memory/policy/code/src/policy.c:30-40 | mapping freshly allocated runs keeps every older range backed and the account of all memory balanced |
| `Policy.Kernel.FreeMapped` | projects/x86/memory/policy/code/src/policy.c:86-129 | the call frees, run by run, the pages met from the first page boundary at or after start up to end |
| `Releases.RunsExpand` | projects/x86/memory/policy/code/src/policy.c:100-128 | the runs freed, expanded page by page, are exactly the pages met, in order |
| `Releases.GatherIsMaximal` | projects/x86/memory/policy/code/src/policy.c:111-123 | no run is empty and no two neighbouring runs could have been one |
| `Releases.EndsInLast` | projects/x86/memory/policy/code/src/policy.c:107-125 | stepping ends in the last of some pages if and only if that page starts before the end of the range and does not end before it |
| `Releases.ServedFreed` | projects/x86/memory/policy/code/src/policy.c:86-129 | on a mapped range, from a boundary to an end anywhere in its last page, the pages freed are its pages in order, however frames and sizes alternate; the last one is freed whole |
| `Releases.FreedInRange` | projects/x86/memory/policy/code/src/policy.c:86-129 | nothing behind the range is freed if and only if the range ends where its last page ends |
| `Releases.EmptyRangeFreesPage` | projects/x86/memory/policy/code/src/policy.c:98-128 | at a boundary a range of no bytes frees a page |
| `Releases.ServedFreedInside` | projects/x86/memory/policy/code/src/policy.c:90-96 | from inside a page the pages behind it are freed, up to the one the range ends in |
| `Releases.PagesFreedInside` | projects/x86/memory/policy/code/src/policy.c:90-96 | in a handed-out range, a start inside page k frees exactly the pages from k + 1 up to the one the range ends in |
| `Releases.FreeAllAdds` | projects/x86/memory/policy/code/src/policy.c:107-128 | freeing the runs adds to free memory exactly what their pages cover |
| `Releases.FreeAllExactly` | projects/x86/memory/policy/code/src/policy.c:107-128 | runs can all be freed if and only if the list of every page size has room for the runs of that size |
| `Policy.Kernel.FreeLive` | projects/x86/memory/policy/code/src/policy.c:86-129 | freeing a whole live range returns its frames and leaves every other range as it was, exactly when the runs fit the free lists |
| `Policy.Kernel.FreePart` | projects/x86/memory/policy/code/src/policy.c:86-129 | freeing pages j to k of a live range returns their frames and keeps the kernel invariant, with the pages in front and behind as two live ranges; it succeeds if and only if the runs of those pages fit the free lists |
| `Policy.CutKeepsKernel` | projects/x86/memory/policy/code/src/policy.c:86-129 | where a live range is cut in two makes no difference to the kernel invariant |
| `Policy.ReleaseKeepsKernel` | projects/x86/memory/policy/code/src/policy.c:86-129 | giving a range back keeps the kernel invariant for the others |
| `Buddy.UsedDisjoint` | projects/shared/code/memory/allocator/src/buddy.c:6-92 | two blocks in use never overlap |
| `Buddy.OnlyHeadersMatter` | projects/shared/code/memory/allocator/src/buddy.c:6-92 | whatever is written where no block starts changes neither the tiling nor the blocks in use |
| `Buddy.MergeKeeps` | projects/shared/code/memory/allocator/src/buddy.c:45-58 | merging two free neighbours of one size keeps the tiling and the blocks in use and lowers the block count by one |
| `Buddy.SplitKeeps` | projects/shared/code/memory/allocator/src/buddy.c:10-16 | halving a free block keeps the tiling and the blocks in use |
| `Buddy.DoublingTest` | projects/shared/code/memory/allocator/src/buddy.c:10 | the 64-bit test decides 2 * size < block size if and only if the doubling does not wrap below the block |
| `Buddy.DoublingCanWrap` | projects/shared/code/memory/allocator/src/buddy.c:10 | for a request of 2^63 bytes the test asks to split a block of 64 |
| `Buddy.TooSmall` | projects/shared/code/memory/allocator/src/buddy.c:39-91 | after a failed search any free block that is not the last one is too small |
| `Buddy.BuddyAllocator.SplitBuddy` | projects/shared/code/memory/allocator/src/buddy.c:6-24 | returns a live free block of at least the request and at most twice it, exactly when the block was large enough: the end piece of that block; used blocks untouched |
| `Buddy.BuddyAllocator.Sweep` | projects/shared/code/memory/allocator/src/buddy.c:40-83 | the best block stays a live free block that fits although the sweep merges; no free block that fits, but possibly the last, is smaller than it, or than half of it if the sweep merged; no used block changes |
| `Buddy.BuddyAllocator.FindBestBuddy` | projects/shared/code/memory/allocator/src/buddy.c:26-92 | as above for the whole search, whose result is the end piece of the best block; when it finds nothing, no free block but possibly the last one is large enough |
| `Buddy.BuddyAllocator.CoalesceOnce` | projects/shared/code/memory/allocator/src/buddy.c:118-151 | a sweep that asks for another one has lowered the number of blocks; one that merged nothing leaves nothing it compares to merge; used blocks untouched |
| `Buddy.BuddyAllocator.CoalesceBuddies` | projects/shared/code/memory/allocator/src/buddy.c:114-157 | the repeated sweeps end and change no block in use; if a pair they compare can be merged, the number of blocks drops; afterwards no such pair is left, unless the last block is free and was merged in the last sweep |
| `Buddy.BuddyAllocator.BuddyAlloc` | projects/shared/code/memory/allocator/src/buddy.c:159-189 | a served request adds exactly one block in use, large enough for header and data and at most twice that; a failed one changes no block in use, has coalesced what its first search left to merge, and leaves no free block that fits but possibly the last; an untouched section serves every request that fits it |
| `Buddy.BuddyAllocator.FreeBuddy` | projects/shared/code/memory/allocator/src/buddy.c:191-199 | removes exactly the freed block from the blocks in use and coalesces: whatever a sweep could merge lowers the number of blocks |
| `StringSet.LookupAddsStride` | projects/shared/code/hash/include/shared/hash/msi/common.h:64-68 | the probe step adds a fixed number modulo the size of the table |
| `StringSet.StrideIsOdd` | projects/shared/code/hash/include/shared/hash/msi/common.h:66 | that number is the top bits of the hash, as many as the exponent says, with the lowest bit set |
| `StringSet.ProbeReaches` | projects/shared/code/hash/include/shared/hash/msi/common.h:64-68 | within 2^exp turns the probe looks at every slot |
| `StringSet.EmptySlotMeansAbsent` | projects/shared/code/hash/src/msi/string-set.c:18-27 | a probe that meets an empty slot first proves the string absent |
| `StringSet.InsertKeeps` | projects/shared/code/hash/src/msi/string-set.c:5-16 | writing an absent string into the first empty slot of its probe keeps every string findable and adds exactly it |
| `StringSet.Table.Contains` | projects/shared/code/hash/src/msi/string-set.c:18-27 | ends whenever a slot is empty or the string is there, and then decides membership |
| `StringSet.Table.Insert` | projects/shared/code/hash/src/msi/string-set.c:5-16 | insertion into a set; the count stays the size of the set if and only if the string is not empty |
| `StringSet.EmptyStringMiscounts` | projects/shared/code/hash/src/msi/string-set.c:5-16 | the empty string inserted into a new table leaves it empty with a count of 1 |
| `StringSet.EqualsStringSet` | projects/shared/code/hash/src/msi/string-set.c:29-48 | success if and only if the two sets are equal; different sizes if and only if their cardinalities differ |
| `Trie.SearchIsLookup` | projects/shared/code/hash/src/trie/string-auto-u16-map.c:30-39 | the descent ends at the node with the key if there is one and at null otherwise, at any depth |
| `Trie.FoundByDigits` | projects/shared/code/hash/src/trie/string-auto-u16-map.c:30-38 | a key found lies at the end of a chain of pointers from the root whose k-th step takes the k-th pair of bits of the hash from the top, zero behind the 32nd, and no node on the way holds the key |
| `Trie.InsertKeeps` | projects/shared/code/hash/src/trie/string-auto-u16-map.c:10-27 | linking a node where the search ended keeps all keys findable under their numbers and every node once in the traversal |
| `Trie.PreorderLinked` | projects/shared/code/hash/src/trie/string-auto-u16-map.c:22-23 | the new node occurs in a traversal exactly as often as the node it was linked under |
| `Trie.PreorderIs` | projects/shared/code/hash/include/shared/hash/trie/common-iterator.h:58-80 | a traversal gives a node, then the subtrees of its children 0 to 3 |
| `Trie.AutoMap.Insert` | projects/shared/code/hash/src/trie/string-auto-u16-map.c:7-28 | a known key returns its number, a new one gets the next number, and the 65536th distinct key is refused |
| `Trie.AutoMap.Contains` | projects/shared/code/hash/src/trie/string-auto-u16-map.c:30-39 | the number of the key, 0 if and only if it is not stored |
| `Trie.NumbersAreStable` | projects/shared/code/hash/src/trie/string-auto-u16-map.c:7-28 | over any history a number, once given, never changes |
| `Trie.NumbersAreBijective` | projects/shared/code/hash/src/trie/string-auto-u16-map.c:7-28 | over any history the numbers are a bijection with the distinct keys |
| `Trie.InsertAll` | projects/shared/code/hash/src/trie/string-auto-u16-map.c:7-28 | a map filled from any history holds the keys in order of first insertion |
| `TrieIterator.CountUp` | projects/shared/code/hash/include/shared/hash/trie/common-iterator.h:59-61 | counting the index up takes the next node or subtree out of what the stack stands for |
| `TrieIterator.Recycled` | projects/shared/code/hash/include/shared/hash/trie/common-iterator.h:70-79 | moving a node from the free list to the stack keeps both lists intact and disjoint |
| `TrieIterator.Iterator.Pop` | projects/shared/code/hash/include/shared/hash/trie/common-iterator.h:62-67 | a finished entry goes to the free list; what is left to visit stays the same |
| `TrieIterator.Iterator.Turn` | projects/shared/code/hash/include/shared/hash/trie/common-iterator.h:58-81 | one turn hands out the first node left, or keeps what is left and comes closer to doing so |
| `TrieIterator.Iterator.Next` | projects/shared/code/hash/include/shared/hash/trie/common-iterator.h:54-83 | returns the data of the next node in preorder, or the zero value when none is left; never more iterator nodes than the trie is high |
| `TrieIterator.ForEach` | projects/shared/code/hash/include/shared/hash/trie/string-auto-u16-map.h:42-49 | iteration over a map yields the data of its preorder sequence, in order and in full |
| `Manipulation.OverlapTest` | projects/freestanding/code/memory/manipulation/src/manipulation.c:106-108 | the modular test takes memcpy if and only if the ranges are disjoint or longer than 2^63 |
| `Manipulation.HugeOverlapTakesMemcpy` | projects/freestanding/code/memory/manipulation/src/manipulation.c:106-108 | a concrete overlapping pair of ranges above 2^63 that reaches memcpy |
| `Manipulation.Memcpy` | projects/freestanding/code/memory/manipulation/src/manipulation.c:23-84 | for every length the destination equals the old source bytes and no other byte changes |
| `Manipulation.MoveUp` | projects/freestanding/code/memory/manipulation/src/manipulation.c:110-126 | the forward byte and word loops do the same for every overlap and alignment |
| `Manipulation.MoveDown` | projects/freestanding/code/memory/manipulation/src/manipulation.c:127-144 | the backward byte and word loops do the same for every overlap and alignment |
| `Manipulation.Memmove` | projects/freestanding/code/memory/manipulation/src/manipulation.c:98-147 | for every pair of ranges up to 2^63 bytes the destination equals the old source bytes and no other byte changes |
| `Manipulation.OnesRepeat` | projects/freestanding/code/memory/manipulation/src/manipulation.c:165-174 | multiplying by 0x0101... stores the byte in every place |
| `Manipulation.SmallMemset` | projects/freestanding/code/memory/manipulation/src/manipulation.c:150-189 | lengths up to 32: exactly the bytes asked for are filled |
| `Manipulation.FourTries` | projects/freestanding/code/memory/manipulation/src/manipulation.c:221-231 | the four conditional stamps always reach the last word and never pass the end |
| `Manipulation.HugeMemset` | projects/freestanding/code/memory/manipulation/src/manipulation.c:191-236 | lengths above 160, every alignment: exactly the bytes asked for are filled |
| `Manipulation.Memset` | projects/freestanding/code/memory/manipulation/src/manipulation.c:238-264 | for every length and alignment exactly the bytes asked for are filled |
| `KernelInfo.U64ToString` | projects/shared/code/text/src/converter.c:46-53 | the backwards fill leaves the decimal text at the end of the buffer and touches nothing before it |
| `KernelInfo.SplitString` | projects/shared/code/text/include/shared/text/string.h:72-82 | the text from a position up to the next token or the end |
| `KernelInfo.GetKernelInfo` | projects/os-loader/code/src/data-reading.c:333-364 | the nested token loops compute the line-by-line reading of any file |
| `KernelInfo.WriteKernelInfo` | projects/image-builder/code/src/partitions/efi.c:434-446 | the text appended is the two key lines with both numbers in decimal |
| `KernelInfo.WrittenAsAscii` | projects/image-builder/code/src/partitions/efi.c:434-446 | the text written is the ASCII text of two lines, KERNEL_SIZE_BYTES= and KERNEL_START_LBA=, each with its number in usual decimal notation |
| `KernelInfo.DigitsNeverWrap` | projects/os-loader/code/src/data-reading.c:344-357 | no intermediate value of the digit loop exceeds the number printed |
| `KernelInfo.RoundTrip` | projects/os-loader/code/src/data-reading.c:333-364 | reading what the image builder writes gives both numbers back, for every pair of 64-bit numbers |
| `Crc32.TableEntry` | projects/image-builder/code/src/crc32.c:4-48 | every table entry is eight division steps of its index |
| `Crc32.IterSplits` | projects/image-builder/code/src/crc32.c:54 | bits above the n lowest only move down in n steps, for any operations that obey the one-bit law |
| `Crc32.IterLinear` | projects/image-builder/code/src/crc32.c:54 | repeated linear steps are linear |
| `Crc32.ByteLaw` | projects/image-builder/code/src/crc32.c:54 | one table step is eight bit steps |
| `Crc32.CalculateCRC32` | projects/image-builder/code/src/crc32.c:50-58 | the checksum of every buffer is the bit-at-a-time CRC-32 |
| `Crc32.CheckValue` | projects/image-builder/code/src/crc32.c:50-58 | the checksum of the ASCII text 123456789 is 0xCBF43926 |
| `LineRing.StartsAre` | projects/freestanding/code/peripheral/screen/src/screen.c:500-517 | the line starts of a text are 0 and every position right after a newline that is not the last character |
| `LineRing.RingIncreases` | projects/freestanding/code/peripheral/screen/src/screen.c:500-506 | read from oldest to newest the ring of line starts never decreases |
| `LineRing.Screen.Flush` | projects/freestanding/code/peripheral/screen/src/screen.c:489-521 | after any run of flushes the rings hold the last 8192 line starts and the last 65536 characters of the text accepted |
| `LineRing.Screen.IndexToLogicalLine` | projects/freestanding/code/peripheral/screen/src/screen.c:365-386 | the search returns the last line that starts at or before the index, or the oldest line held |

## Left out

- PhysicalMemory.MemoryManager.FreePhysicalPages: a call that would have to move the metadata ends in the status `Full`. Growth of the base manager from its own list is proved to conserve memory on the lists (`BaseGrowthConserves`); growth that itself steals, and growth of the larger managers, where the recorded entry is wrong, are not followed further.
- PhysicalMemory.PhysicalMemoryManagers.InitPMM: the base page that becomes the metadata buffer leaves the account; it stands outside what the free lists cover.
- Policy.Kernel.FreeLive: like the code it leaves the pages mapped, so an address of a freed range still translates; the invariant speaks only of ranges still handed out. It, and `FreePart`, ask for frames below 2^48, since others are read back wrong (`FrameReadBack`), and `FreePart` for whole pages; other ends are covered by `FreeMapped`, `ServedFreed` and `ServedFreedInside`.
- Policy.Kernel.FreeMapped: requires that stepping through the range does not pass the top of the address space, where the additions of the code would wrap.
- Policy.Kernel.AllocAndMapExplicit: after `Overshot` or `Overrun` the code goes on over memory that is not its own; nothing is promised of the state then, nor after a fault, where the kernel halts. The same holds of `AllocContiguousAndMap` and `AllocAndMap`.
- PhysicalMemory.PhysicalMemoryManagers.AllocContiguousPhysicalPages: page counts within 511 of 2^64, where the ceiling division of the code wraps; the policy layer asks for at most 512.
- VirtualMemory.AddressSpace.MapVirtualRegionWithFlags: requires an aligned region that stays in one half of the address space and that no larger page covers, as the comment above the function leaves to its callers.
- Manipulation.Memmove: for lengths up to 2^63; above that the overlap test is wrong, as `OverlapTest` shows.
- Buddy.BuddyAllocator.BuddyAlloc: requests whose size times count, with the header, stays below 2^63; the product is a signed one in the code. The contents of the block and the `ZERO_MEMORY` flag are not modelled. No claim is made that only true buddies merge or that the last block is found, because the sweeps guarantee neither; and the best block is the smallest that fits only up to a factor of two once a sweep has merged.
- Buddy.BuddyAllocator.SplitBuddy: requests below 2^63, as `DoublingTest` shows why; from 2^63 on the wrapped test splits blocks down to sizes below their own headers. The same holds of `FindBestBuddy`.
- Buddy: headers are kept in arrays by offset; that they do not overlap follows from every block being at least a header long, and `OnlyHeadersMatter` covers writes into data.
- StringSet.EqualsStringSet: tables up to 2^30 slots, the range of the shift in its loop macro.
- Trie: nodes are positions in an arena, not addresses; running out of arena memory is not modelled.
- TrieIterator: the trie does not change during an iteration.
- KernelInfo: the file buffer is a value that grows by appending; the FAT32 entry around it is not part of this model.
- LineRing.Screen.Flush: up to 2^64 accepted characters, where the counter would wrap; drawing to the screen is not modelled.
- `initPhysicalMemoryManager` and the firmware memory map: a scan that fills the base list.
- `convertBytesToPagesToMapSmartly`: it has no caller and is one division per page size.
- The firmware's page allocator, TLB flushes, page attributes, accessed and dirty bits: effects outside the data modelled here.
- `msi_newSet`, `memcmp`, the other sets, maps and conversions: the same loops again, or easy ones.
- Build tooling, assembly, interrupt setup, the FAT, GPT and MBR layout, glyph drawing, logging.
