# Dangless: proofs about the allocator core

Dangless gives every heap block its own virtual pages (an *alias* of the canonical block) and, when
the block is freed, makes those pages unusable for good. This project models the four pieces of code
that have to agree for that to work, the formatter they report through, and proves what each piece
promises and what they guarantee together.

| file | what it models |
|---|---|
| `Options.dfy` | the option type |
| `Words.dfy`, `PageMath.dfy` | page-table words as bit strings; page spans, levels, offsets |
| `Spans.dfy`, `SpanList.dfy`, `VirtmemAlloc.dfy` | the virtual page allocator: canonical span lists as values, the doubly linked list, first fit and coalescing |
| `PageTree.dfy`, `PageUnits.dfy`, `PageEntries.dfy`, `PageTable.dfy`, `SeenPages.dfy`, `TlbOrder.dfy` | the four-level page table as a tree, as a flat map, by the entries of all levels, and as `pt_resolve` sees it; walk, map, unmap, invalidate; the TLB |
| `Chart.dfy` | the recursive summary of a page table as regions |
| `DuneMem.dfy` | Dune's translation between virtual and physical addresses and its inverse |
| `Machine.dfy`, `Runs.dfy` | the whole allocator as a state machine over pages; what every run guarantees |
| `LowHalf.dfy` | when aliases stay in the half of the address space that the processor can reach |
| `Steps.dfy`, `Dangless.dfy` | malloc, calloc, realloc, free over all of the above; each call is a sequence of steps of that machine |
| `RecordedStart.dfy` | the address space the repository has on record, as a start for the allocator |
| `FirstUse.dfy`, `FirstCall.dfy` | an address space built from nothing, an allocation in it, and a system call on the alias |
| `FixupRestore.dfy`, `Fixup.dfy` | the undo log; rewriting of pointers around system calls |
| `ByteLog.dfy` | fix-up and undo log on bytes, where words may overlap |
| `FailingInputs.dfy` | inputs on which the code does what its comments rule out |
| `Format.dfy`, `FormatMeaning.dfy` | the formatter that does not allocate; what each conversion prints, read back |

How the layers fit: a `VpFreelist` stands for a set of free pages, a `PageTables` object for a flat map
from page numbers to mappings, and a `DanglessMalloc` object for a `Machine.State`. `DanglessMalloc`
carries a ghost `run`; its invariant says that the run is legal and ends in the object's present state,
and every operation extends it. So each theorem of `Runs` holds of the object after any sequence of calls.

Allocations that can fail do so by a nondeterministic choice, counted by a ghost field `refusals` of the
object that asked. Contracts use it to say that an operation fails, loses pages or loses a log record only
if such an allocation was refused. A constant `mayRefuse` of the page tables and of the span list says
whether the host may refuse while it has something left; without it, a table page is refused only for lack
of frames. The processor, too, is free: it may cache translations after every store and every flush of
`PageTables`, inside an operation as well as between operations.

## What the model assumes

* A range given to `vp_free` or `dangless_dedicate_vmem` is disjoint from every page that is free,
  mapped or dead; the list does not check this. Before auto-dedication it lies in PML4 slots that are in
  use, because auto-dedication hands out every other slot whole.
* At start-up PML4 slot 0 and the slots of Dune's stack are in use. Up to the end of the stack, memory that is
  mapped is mapped by Dune's translation, and no address from 448 to 511 GB to itself. What is mapped above
  the stack, such as the vsyscall page, shows memory that is mapped below for good. Entries at frame 0, whose
  pages `pt_resolve` takes for unmapped, lie in PML4 slot 0, and the heap is not on their pages.
  `RecordedStart.RecordedStartInv` proves this of every page table whose chart is the one on record
  (`notes/dune_mem_layout.stdout:131-156`, without its two aliases) and in which the entry of page 0 is that of
  a 4K or 2M page. `FirstUse.StartTables` builds small tables for which it holds with the functions of the model.
* The system allocator is abstract: its answer to each request is an argument. Blocks it has handed out
  are disjoint, lie in identity-mapped memory below 448 GB or in the mmap region, stay within one of the
  two, and keep their usable size until they are resized or freed. `realloc` is not asked for size 0.
* Mapping flags hold neither the PS bit nor frame bits. Table pages come zeroed, from frames nobody
  holds. Allocation of span nodes, table pages and log space may fail at any call.
* The program passes `free` and `realloc` NULL, a pointer it holds, or one whose page is dead. Dangless
  passes pointers that are not its own on to the system allocator, and the model has it ignore addresses that
  are not its blocks; C leaves that undefined. That a dangling pointer, or an alias freed while the hook
  cannot be entered, changes nothing rests on this.
* `vremap_resolve` runs in kernel mode, as it asserts; so do the hooks around system calls.
* No two words of user memory that a fix-up may read or write share a byte (`Fixup.WordsApart`, part of the
  invariant of `Fixup.VmcallHooks`). `ByteLog` shows that such words are a faithful picture of the bytes,
  and what goes wrong with others.

## Where the code differs from its comments, or needs a condition

* `sources/src/dangless_malloc.c:401` says a moved `realloc` may return the old address. It cannot:
  `Dangless.DanglessMalloc.Realloc` proves that the result is a different address.
* `sources/src/virtmem.c:140-147` flushes a page before it overwrites the page's entry. With the assertion
  at line 124 compiled out, a translation cached between the two stays stale. `TlbOrder.MapOrderExact`
  gives the condition: the order is coherent if and only if the page was unmapped or keeps its mapping.
* `sources/src/virtmem_alloc.c:45` calls the list singly linked and ordered by end; it is doubly linked and
  ordered by start, which for disjoint spans is the same order.
* `malloc(0)` and `calloc` of nothing keep the block the system allocator gave and return NULL, so the
  program cannot free it (`Dangless.DanglessMalloc.Malloc`: `blocks` grows, `live` does not).
* `pt_resolve` answers 0 both for memory that is not mapped and for pages of an entry at frame 0
  (`PageTable.PageTables.PtResolve`); page 0 of the recorded layout is one.
* `vremap_resolve` takes everything for remapped that is not mapped by Dune's translation: below 2^48 it succeeds
  on alias pages and on the pages Dune maps above the stack (`Runs.ResolveSound`). So the vsyscall address is
  rewritten to the low address of the memory behind it (`FailingInputs.VsyscallRewritten`).
* It walks by the low 48 bits of a value but compares all 64 with Dune's translation, so from 2^48 up it never
  answers "not remapped". It answers "no backing" if the low part is not mapped, as below if the low part is
  an alias or lies above the stack, and the low part itself if that is plain memory below the physical
  addresses of the stack; on stack memory it fails the assertion of `sources/src/platform/dune/mem.c:20`
  (`Runs.ResolveHigh`). So the fix-up rewrites words that are no alias address
  (`FailingInputs.HighBitsRewritten`), and it can abort on an invalid word (`FailingInputs.HighStackAborts`),
  against `sources/src/platform/dune/vmcall_fixup.c:37`. `Fixup.RewrittenExactly` says which words are rewritten
  and on which the code aborts; the contracts of resolve and fix-up hold for all values on which it does not.
* The iovec count of a message header survives a fix-up if and only if the fix-up would not rewrite it
  (`Fixup.WordKept`); the fix-up contracts require that.
* The undo log is written back front to back. That is exact for all contents of memory and all words written
  if and only if no two of the locations are less than 8 bytes apart (`ByteLog.RestoredExactlyApart`).
  `FailingInputs.ForwardRestoreFails` has two aliases and words at 0x2000 and 0x2004 whose fix-up is not undone.
  Written back to front it would be exact for all words (`ByteLog.BackwardAlwaysExact`). Arrays of aligned words
  may overlap: a word is logged once however often it is visited (`ByteLog.PassRestored`).
* If the first allocation of the undo log is refused, doubling its capacity of 0 makes no room. Records then
  stay inside the buffer exactly if every request for no bytes is answered with NULL
  (`FixupRestore.RoomExactly`); after any other answer they are written past it.
* Auto-dedication hands out zero PML4 slots of the upper half too, whose addresses are not canonical on
  x86-64 and fault whatever the page table says. The pages it hands out stay below 2^47 if and only if
  slots 256 to 511 are in use (`LowHalf.ZeroSlotsLow`, over whole runs `LowHalf.RunsStayLowExactly`).
* `pt_unmap_page` flushes one page, whatever level it unmaps at. Every cache that was coherent before is
  coherent afterwards if and only if no other page below the entry was mapped (`TlbOrder.UnmapUnitExact`);
  for 4K pages, all it is used for, that is always so.

## Model

| member | source | states |
|---|---|---|
| Words.MasksAreFields | sources/include/dangless/virtmem.h:23-42 | for every word, the flag tests and the three frame masks (4K, 2M, 1G) select exactly the valid bit, the size bit and the aligned frame number |
| Words.PermissionMask | sources/testapps/dune-mem-layout/virtmem_chart_layout.c:53 | the chart's flag mask keeps V, W, U and NX and nothing else |
| Words.MakePteFields | sources/src/virtmem.c:102-147 | a word made as `pa OR flags OR PTE_V` decodes to that frame and those permissions, is valid and never a huge mapping |
| Words.DeadMarkerIsInvalid | sources/include/dangless/virtmem.h:44-50 | the dead marker is 0xDEAD shifted by a byte; its valid bit is clear, and it is not the zero of a cleared entry |
| PageMath.LevelOffset | sources/include/dangless/virtmem.h:87-98 | shift and mask of an address give the index of its page number in the table of that level, for all four levels |
| PageMath.SpannedPagesMeaning | sources/include/dangless/platform/mem.h:30-37 | a page is spanned if and only if some byte of the range lies on it |
| PageMath.SpanDependsOnOffset | sources/src/platform/dune/virtual_remap.c:30-35 | an alias and its canonical block, equal in page offset, span the same number of pages |
| PageMath.ShrinkIsExact | sources/src/dangless_malloc.c:377-389 | the pages invalidated by an in-place shrink, with start from the alias and count from the canonical pointer, are exactly those of the old block that the new one does not touch |
| Spans.FirstFitIsLowest | sources/src/virtmem_alloc.c:62-69 | the first large enough span of a canonical list starts the lowest run of n free pages that exists |
| Spans.NoLargeSpanNoRun | sources/src/virtmem_alloc.c:71-79 | if no span is large enough, no n consecutive pages are free anywhere |
| Spans.TakeFromPages | sources/src/virtmem_alloc.c:86-102 | taking pages off the front of one span keeps the list canonical and removes exactly those pages |
| Spans.CoalescePages | sources/src/virtmem_alloc.c:140-193 | adding a disjoint range with all merging keeps the list canonical and adds exactly those pages |
| Spans.CanonicalUnique | sources/src/virtmem_alloc.c:44-52 | two canonical lists with the same pages are equal |
| SpanList.SpanListHead.Remove | sources/include/dangless/queue.h:292-299 | LIST_REMOVE deletes the element at its position and keeps forward and back links consistent |
| SpanList.SpanListHead.InsertAfter | sources/include/dangless/queue.h:266-274 | LIST_INSERT_AFTER inserts right behind the given element, links consistent |
| SpanList.SpanListHead.InsertBefore | sources/include/dangless/queue.h:276-282 | LIST_INSERT_BEFORE inserts right before the given element, links consistent |
| SpanList.SpanListHead.InsertHead | sources/include/dangless/queue.h:284-290 | LIST_INSERT_HEAD inserts at position 0, links consistent |
| SpanList.SpanListHead.RemoveAll | sources/src/virtmem_alloc.c:198-202 | the safe traversal that removes every element ends with the empty list |
| VirtmemAlloc.VpFreelist.FindFit | sources/src/virtmem_alloc.c:65-69 | finds the first span of at least n pages, or the end of the list when there is none |
| VirtmemAlloc.VpFreelist.Alloc | sources/src/virtmem_alloc.c:62-105 | returns the lowest address with n consecutive free pages and removes exactly those; fails, changing nothing, only if no such run exists |
| VirtmemAlloc.VpFreelist.FindGap | sources/src/virtmem_alloc.c:132-139 | finds the two neighbouring spans between which a range ends |
| VirtmemAlloc.VpFreelist.TryMergeSpans | sources/src/virtmem_alloc.c:107-121 | merges two neighbours if and only if they touch |
| VirtmemAlloc.VpFreelist.Free | sources/src/virtmem_alloc.c:123-193 | the range joins the free pages and the list stays canonical; it fails only if a span node was refused and neither neighbouring page is free, and then nothing changes |
| VirtmemAlloc.VpFreelist.Reset | sources/src/virtmem_alloc.c:195-207 | no page is free afterwards |
| VirtmemAlloc.SamePagesSameList | sources/src/virtmem_alloc.c:44-52 | two allocators with the same free pages hold the same list of spans, node for node |
| VirtmemAlloc.OrderIndependent | sources/src/virtmem_alloc.c:123-193 | freeing the same ranges in any order gives the same list |
| PageTree.WalkPosition | sources/src/virtmem.c:22-47 | in a tree of tables every table a walk visits is the one at the position of the page walked to |
| PageTree.NoSharing | sources/src/virtmem.c:86-106 | two walks that meet in one table frame are at the same level and under the same prefix |
| PageTree.WalkIgnoresHighBits | sources/src/virtmem.c:22-47 | page numbers equal modulo 2^36 have the same walk |
| PageTree.LeafWriteFlat | sources/src/virtmem.c:147 | one store to a level-1 entry changes the flat map at exactly one page and keeps the tree and all other leaf entries |
| PageTree.LinkFlat | sources/src/virtmem.c:102-103 | linking in a zeroed table, at any level, changes no translation and no leaf entry |
| PageTree.MappedIsUsed | sources/src/dangless_malloc.c:62-66 | a page that is mapped lies in a PML4 slot whose root entry is not zero |
| PageUnits.CutFlat | sources/src/virtmem.c:189-205 | clearing an entry at any level, leaf or link, removes exactly the pages below it from the flat map and keeps the tree |
| PageEntries.LinkEntries | sources/src/virtmem.c:102-103 | linking in a zeroed table keeps the word of every valid entry, of all levels on all walks, and adds only entries that have bits 0, 1, 2 and 63 as asked for |
| PageEntries.LeafEntries | sources/src/virtmem.c:147 | a store to a level-1 entry changes no entry of any level on any walk but that one |
| PageEntries.MadeGrants | sources/src/virtmem.c:102-147 | a word made from a frame and flags is valid and has bits 1, 2 and 63 as the flags have them, by position |
| PageTable.PageTables.PtWalk | sources/src/virtmem.c:22-47 | for every 64-bit address the loop ends at the entry where the recursive walk of the low 48 bits ends, with its level |
| PageTable.PageTables.PtResolvePage | sources/src/virtmem.c:49-75 | 0 if and only if the page of the low 48 bits is not mapped or its entry is at frame 0; otherwise the aligned base frame of a 4K, 2M or 1G mapping, with the level of the entry where the walk ends |
| PageTable.PageTables.PtResolve | sources/src/virtmem.c:77-84 | the physical address the flat map gives to the byte that the low 48 bits name, whatever the size of the mapping; 0 if and only if the page is not mapped or its entry is at frame 0 |
| PageTable.PageTables.PpZallocOne | sources/src/virtmem.c:92-96 | a frame nobody holds, or failure, which needs a host that may refuse or has no frame left |
| PageTable.PageTables.PtMapPageCreateLevel | sources/src/virtmem.c:86-106 | one more level exists below where the walk ended, or the table page was refused; no translation changes either way; valid entries of all levels keep their words, and new ones have bits 0, 1, 2 and 63 as the flags ask |
| PageTable.PageTables.CreateLevels | sources/src/virtmem.c:126-138 | whichever level the walk stopped at, it now reaches level 1, or a table page was refused; no translation changes |
| PageTable.PageTables.PtMapPage | sources/src/virtmem.c:108-154 | success changes the flat map at exactly one page, failure, which needs a refused table page, not at all; every entry it adds, of whatever level, has the permission bits of the flags, and valid entries other than the page's own keep their words; TLB stays coherent if the page was unmapped, and otherwise only this page's cached translation may be stale |
| PageTable.PageTables.PtMapRegion | sources/src/virtmem.c:156-187 | all or nothing: every page va+k maps to frame pa+k, or, wherever a table page was refused, no translation has changed; every entry added, of whatever level, has the permission bits of the flags, and valid entries outside keep their words; TLB coherent throughout, with fills at any point |
| PageTable.PageTables.UnmapFirst | sources/src/virtmem.c:179-184 | the cleanup loop takes back exactly the pages mapped before the failure |
| PageTable.PageTables.PtUnmapPage | sources/src/virtmem.c:189-205 | at any level: removes exactly the pages below the entry from the flat map, or reports that the walk stopped elsewhere; the TLB is coherent afterwards if no other page of the unit was mapped before, and always for 4K pages |
| PageTable.PageTables.InvalidatePte | sources/src/dangless_malloc.c:234-236 | one entry gets the dead marker and leaves the flat map; TLB coherent after the flush |
| PageTable.PageTables.InvalidateBatch | sources/src/dangless_malloc.c:252-260 | consecutive entries of one table die, found without walking again |
| PageTable.PageTables.VirtualInvalidate | sources/src/dangless_malloc.c:238-264 | across any number of table boundaries, exactly the npages entries of the range get the dead marker, none of them stays cached, no entry of any level is added and no other valid one changes; the assertion that the first entry of each table is valid holds |
| TlbOrder.OnlyPendingStale | sources/src/virtmem.c:140-145 | under any interleaving of TLB fills, a stale translation can only be of a page changed and not yet flushed |
| TlbOrder.OperationsCoherent | sources/src/virtmem.c:189-205 | any sequence of map, unmap and invalidate, with fills between any two instructions, ends with a coherent TLB, if no mapped page is mapped over |
| TlbOrder.MapOrderExact | sources/src/virtmem.c:140-147 | flushing before storing is coherent if and only if the page was unmapped or keeps its mapping |
| TlbOrder.UnmapUnitExact | sources/src/virtmem.c:189-205 | clearing an entry and flushing one of its pages leaves every coherent cache coherent, whatever fills come between, if and only if no other page of the unit was mapped |
| Chart.VirtmemChart.AddNext | sources/testapps/dune-mem-layout/virtmem_chart_layout.c:35-43 | the new region starts where the current one ends |
| Chart.VirtmemChart.ChartLayoutInternal | sources/testapps/dune-mem-layout/virtmem_chart_layout.c:45-126 | charting one table extends a correct chart over all pages of that table, at any level, and joins unmapped neighbours if invalid entries have no permission bits |
| Chart.ChartLayout | sources/testapps/dune-mem-layout/virtmem_chart_layout.c:128-148 | the regions are non-empty, tile the whole address space, give every page its exact translation or its absence, and no two mapped neighbours could have been merged; if invalid entries have no permission bits, no two unmapped regions are neighbours, and they have no address and no flags |
| Chart.ChartUnique | sources/testapps/dune-mem-layout/virtmem_chart_layout.c:45-148 | two charts of one page table that leave nothing to merge, mapped or unmapped, are the same sequence of regions |
| Chart.Covered | sources/testapps/dune-mem-layout/virtmem_chart_layout.c:132-136 | every page lies in some region of a chart |
| Chart.ChartDeterminesTable | sources/testapps/dune-mem-layout/virtmem_chart_layout.c:128-148 | page tables with the same chart have the same flat map |
| DuneMem.InverseExactlyOnCanonical | sources/src/platform/dune/mem.c:6-30 | translating forth and back is accepted and returns the same address if and only if the address is identity-mapped below 448 GB or in the mmap region |
| DuneMem.CanonicalInjective | sources/src/platform/dune/mem.c:21-29 | no two canonical addresses share a physical address |
| DuneMem.Contiguous | sources/src/platform/dune/virtual_remap.c:37-39 | a block inside one region is physically contiguous |
| DuneMem.AliasRecognised | sources/src/platform/dune/virtual_remap.c:107-120 | the exact aliases for which comparing the walk with Dune's own translation would fail |
| Machine.StepKeepsInv | sources/src/dangless_malloc.c:149-407 | every step (dedicate, auto-dedicate, block handed out, resized or taken back, remap, fallback, lost pages, release) keeps free, live and dead pages apart and every alias on its block's frames |
| Machine.AliasPagesRelease | sources/src/dangless_malloc.c:280-287 | giving up a pointer removes exactly its own pages from the alias pages |
| Machine.UnusedSlotIsFresh | sources/src/dangless_malloc.c:55-78 | a page in a PML4 slot with a zero entry was never free, mapped or dead, so auto-dedication reclaims nothing |
| Runs.ReachableInv | sources/src/dangless_malloc.c:149-407 | the invariant holds in every state of every run |
| Runs.DeadForever | sources/src/dangless_malloc.c:234-300 | a page once dead is never mapped, free or held again, in any continuation of the run |
| Runs.UseAfterFreeFaults | sources/src/dangless_malloc.c:266-300 | after the program gives up an alias, no byte of it is ever translated again |
| Runs.NeverReissued | sources/src/virtmem_alloc.c:62-105 | a new alias avoids every page that was ever an alias or dead before |
| Runs.ReachableBytes | sources/src/platform/dune/virtual_remap.c:26-102 | in every reachable state every byte of a held block translates to the physical byte of its canonical block |
| Runs.HeldBlocksIsolated | sources/src/platform/dune/virtual_remap.c:26-102 | bytes of two different held blocks are never one physical byte, even on shared physical pages |
| Runs.ResolveHeldAlias | sources/src/platform/dune/virtual_remap.c:104-130 | resolving byte i of a held alias gives byte i of its canonical block |
| Runs.ResolveCanonical | sources/src/platform/dune/virtual_remap.c:116-120 | an address on a heap page is below 2^48 and is reported as not remapped |
| Runs.ResolveSound | sources/src/platform/dune/virtual_remap.c:104-130 | below 2^48 resolve succeeds if and only if the page is an alias page or one that Dune maps above the stack, never on the stack; its answer lies on a page mapped for good, and the assertion of the inverse translation holds |
| Runs.ResolvePlain | sources/src/platform/dune/virtual_remap.c:104-130 | off the alias pages: what a page above the stack shows, not remapped for other mapped memory, no backing otherwise |
| Runs.ResolveHigh | sources/src/platform/dune/virtual_remap.c:104-130 | the exact result for every value from 2^48 up: no backing, the result below for an alias or a page above the stack, the low 48 bits of plain memory, or the failed assertion |
| Runs.SomeAliasLivesAndDies | sources/src/dangless_malloc.c:196-300 | the guarantees are not empty: some legal run creates an alias and lets it die |
| LowHalf.ZeroSlotsLow | sources/src/dangless_malloc.c:55-78 | what auto-dedication hands out lies below 2^47 if and only if PML4 slots 256 to 511 are in use |
| LowHalf.RunStaysLow | sources/src/dangless_malloc.c:55-78 | with those slots in use at the start and no dedication above, aliases and free pages stay below 2^47 in every run |
| LowHalf.RunsStayLowExactly | sources/src/dangless_malloc.c:55-78 | before auto-dedication, all legal runs with low dedications stay below 2^47 if and only if those slots are in use |
| Steps.RemapFlagsOk | sources/src/platform/dune/virtual_remap.c:91 | the flags used for aliases are admissible for the mapping functions |
| Steps.AllocatedPages | sources/src/platform/dune/virtual_remap.c:66-70 | the answer NULL always means failure, and an address means unmapped free pages inside the address space |
| Steps.HeldResolves | sources/src/dangless_malloc.c:276-280 | a held alias resolves to its block, a held plain pointer to itself |
| Steps.DeadResolves | sources/src/dangless_malloc.c:276-296 | a pointer to a dead page has no physical backing and is not the address of any block |
| Steps.PointerKind | sources/src/dangless_malloc.c:302-332 | a pointer realloc may be given is the address of a block if and only if it is held and no alias; what resolve answers for each kind |
| Steps.ResizeStep | sources/src/dangless_malloc.c:343-389 | an in-place change of size that needs no further page ends exactly the pages no longer spanned |
| Steps.MoveSteps | sources/src/dangless_malloc.c:400-406 | a moving realloc is release, free and allocation in turn, each a legal step |
| Steps.ProductFits | sources/src/dangless_malloc.c:220 | the wrapped product of calloc is the true product whenever the system allocator has answered with a block |
| Dangless.DanglessMalloc.constructor | sources/src/dangless_malloc.c:48-53 | at start-up, on Dune's mappings and any mappings above the stack, nothing is dedicated, held or dead, the heap's pages are the given ones, and the run begins |
| RecordedStart.ChartedFrame | notes/dune_mem_layout.stdout:131-156 | a page table with the recorded chart maps exactly the recorded pages, to the recorded frames |
| RecordedStart.OnlyRecorded | notes/dune_mem_layout.stdout:131-156 | on a page table that has the recorded chart, no other chart could be answered |
| RecordedStart.RecordedStartInv | notes/dune_mem_layout.stdout:131-156 | every page table with the recorded chart, in which page 0 has a 4K or 2M entry, meets the start-up condition of the allocator, page 0, the system pages and the vsyscall page included |
| FirstUse.AllocateAndFree | sources/src/dangless_malloc.c:196-300 | from nothing, page tables and an allocator are built, one page is dedicated, and malloc and free are called; if the host refuses nothing, the block is shown through an alias and the alias is dead afterwards |
| Dangless.DanglessMalloc.VremapMap | sources/src/platform/dune/virtual_remap.c:26-102 | success is a remap step with a new nonzero pointer; out of virtual memory means no long enough run is free anywhere; a failed mapping needs a refused table page, holds no alias, and loses the pages it took only if the span list could not take them back |
| Dangless.DanglessMalloc.GiveBack | sources/src/platform/dune/virtual_remap.c:92-97 | after a failed mapping the pages return to the allocator, or are lost if a span node was refused; nothing else changes |
| Dangless.DanglessMalloc.VremapResolve | sources/src/platform/dune/virtual_remap.c:104-130 | computes by walk and arithmetic alone what the abstract resolution says, for every 64-bit value on which the assertion of the inverse translation does not fail |
| Dangless.DanglessMalloc.DedicateVmem | sources/src/dangless_malloc.c:48-51 | exactly the range joins the free pages, or, if a span was refused, nothing changes |
| Dangless.DanglessMalloc.AutoDedicateVmem | sources/src/dangless_malloc.c:55-78 | if no span is refused, the free pages gain exactly the pages of all zero PML4 slots, none of them free before, in one canonical list |
| Dangless.DanglessMalloc.DoVremap | sources/src/dangless_malloc.c:149-194 | the block is shown through a new alias, or directly if a table page was refused (by the host's own will, or because it had fewer than three frames for each page) or no long enough run is free even after auto-dedication, which happens only if none was free before; the retry loop ends |
| Dangless.DanglessMalloc.HookEnter | sources/src/dangless_malloc.c:87-122 | entered if and only if no hook runs and the process is in kernel mode |
| Dangless.DanglessMalloc.HookExit | sources/src/dangless_malloc.c:124-134 | undoes one entry and keeps the invariant |
| Dangless.DanglessMalloc.Malloc | sources/src/dangless_malloc.c:196-208 | every outcome of malloc: refused, not hooked, size zero, aliased or shown directly; once the hook is entered, NULL exactly if there is no block or nothing was asked for; only legal steps are added to the run |
| Dangless.DanglessMalloc.Calloc | sources/src/dangless_malloc.c:210-221 | as malloc, for the product of the arguments, although the code multiplies modulo 2^64; once the hook is entered, NULL exactly if there is no block or a factor is 0 |
| Dangless.DanglessMalloc.Kill | sources/src/dangless_malloc.c:280-287 | all pages of the alias, and no others, die |
| Dangless.DanglessMalloc.Free | sources/src/dangless_malloc.c:266-300 | a held pointer loses its alias pages and exactly its own block; a dangling one, or an alias while the hook cannot be entered, is passed on as it is, is no block's address, and changes nothing |
| Dangless.DanglessMalloc.ReallocFresh | sources/src/dangless_malloc.c:331-336 | realloc of NULL, of a plain pointer or of a dangling one is a new allocation that replaces the old block, if there is one |
| Dangless.DanglessMalloc.KeepInPlace | sources/src/dangless_malloc.c:355-391 | the alias keeps its address and loses exactly the pages its block no longer reaches |
| Dangless.DanglessMalloc.ReallocAlias | sources/src/dangless_malloc.c:338-406 | the alias stays if and only if its block does and needs no more pages; otherwise the whole old alias dies and the new address differs |
| Dangless.DanglessMalloc.Realloc | sources/src/dangless_malloc.c:302-407 | every outcome of realloc, with the blocks, pointers and dead pages after it; for a dangling pointer, or an alias while the hook cannot be entered, nothing changes but what a new allocation adds |
| Dangless.DanglessMalloc.GetCanonical | sources/src/dangless_malloc.c:409-418 | for every value on which resolve does not abort: the block behind an alias, the value itself if not remapped, NULL if not backed; so the block behind a held pointer and NULL for a dead one; no change of state |
| Dangless.DanglessMalloc.DeadPage | sources/src/dangless_malloc.c:234-264 | a dead page holds the word 0xDEAD00, which the page-fault handler looks for, is not mapped, not cached and cannot be handed out |
| Dangless.DanglessMalloc.HeldByte | sources/src/platform/dune/virtual_remap.c:85-101 | the page table, and the TLB where it has the page, give every held byte the physical address of its canonical byte |
| Dangless.DanglessMalloc.AliasWritable | sources/src/platform/dune/virtual_remap.c:85-101 | below a PML4 slot that was zero at the start, the entries of all four levels on the walk to an alias byte are valid, writable, not for user mode and not executable, by bit position |
| Fixup.CanonLaws | sources/src/platform/dune/vmcall_fixup.c:64-131 | for every 64-bit word: the fixed-up value is never remapped, fixing twice is fixing once, NULL-ness and validity are neither lost nor gained, and what could be resolved still can |
| Fixup.CanonSameByte | sources/src/platform/dune/vmcall_fixup.c:64-131 | the fixed-up value names the byte of physical memory that the low 48 bits of the value named; a value that names none is left alone |
| Fixup.BackedExactly | sources/src/platform/dune/vmcall_fixup.c:64-131 | a pointer counts as valid exactly from 4096 up, on the stack or where its low 48 bits name a page that `pt_resolve` sees |
| Fixup.RewrittenExactly | sources/src/platform/dune/vmcall_fixup.c:64-131 | exactly which 64-bit words are rewritten, those with low bits on alias pages or above the stack and some from 2^48 up, and on which the code fails its assertion |
| FailingInputs.HighBitsRewritten | sources/src/platform/dune/vmcall_fixup.c:37-131 | with no alias in existence, the word 2^48 + 4096 is rewritten to 4096 |
| FailingInputs.HighStackAborts | sources/src/platform/dune/vmcall_fixup.c:37-131 | a stack address with bit 48 set makes the fix-up fail the assertion of the inverse translation |
| FailingInputs.VsyscallRewritten | sources/src/platform/dune/vmcall_fixup.c:64-131 | on the recorded address space, with no alias in existence, the vsyscall address and its low 48 bits are rewritten to 0x62d000 |
| Fixup.WordKept | sources/src/platform/dune/vmcall_fixup.c:208-257 | a word survives every fix-up if and only if it is not one of the words that resolve succeeds on |
| Fixup.SlotsStable | sources/src/platform/dune/vmcall_fixup.c:134-262 | fixing up any words leaves unchanged which words an argument leads to, array lengths and terminators included |
| Fixup.NothingRemapped | sources/src/platform/dune/vmcall_fixup.c:270-351 | after the pass no described argument and no pointer reachable through one is remapped; words that resolve does not succeed on are as before |
| Fixup.PassIsDone | sources/src/platform/dune/vmcall_fixup.c:134-351 | what the host finds, by literal offsets: no argument looked at is remapped, and no word of a valid one is: entries before the first zero word, base pointers 16 bytes apart up to the count in the next argument, the words at 0, 16 and 32 of a message header and the base pointers of the iovecs that its words at 16 and 24 describe; every other word and argument is as before |
| Fixup.SecondPassIdle | sources/src/platform/dune/vmcall_fixup.c:270-351 | a second pass changes no word and no argument |
| Fixup.SameTargets | sources/src/platform/dune/vmcall_fixup.c:270-351 | after the pass every described argument and every pointer reached points at the physical byte it pointed at before |
| Fixup.NothingToLog | sources/src/platform/dune/vmcall_fixup_restore.c:57-77 | a pass that changes no word logs nothing |
| Fixup.RoundTrip | sources/src/platform/dune/vmcall_fixup_restore.c:79-97 | with an idle host, memory is as before the call if and only if no record was lost; what the host wrote outside the logged words stays |
| Fixup.WordRoundTrip | sources/src/platform/dune/vmcall_fixup_restore.c:79-97 | the value of every single word after the call, for any host writes and any lost records |
| ByteLog.ForwardRestoreExact | sources/src/platform/dune/vmcall_fixup_restore.c:57-97 | on bytes: if no two rewritten words are less than 8 bytes apart, the restore in log order gives every rewritten byte its first value and leaves the others as the host left them |
| ByteLog.RestoredExactlyApart | sources/src/platform/dune/vmcall_fixup_restore.c:57-97 | the restore in log order is exact for all memory, all words written and all that the host does, if and only if no two locations are less than 8 bytes apart |
| FailingInputs.ForwardRestoreFails | sources/src/platform/dune/vmcall_fixup_restore.c:79-97 | in a state with two aliases, the fix-up of the words at 0x2000 and 0x2004 followed by the restore leaves a canonical address where the program had an alias |
| ByteLog.BackwardAlwaysExact | sources/src/platform/dune/vmcall_fixup_restore.c:57-97 | written back from its end, the log restores memory whatever words overlap |
| ByteLog.StoresFaithful | sources/src/platform/dune/vmcall_fixup_restore.c:57-97 | on words that share no byte, any sequence of stores on bytes is the same sequence on the word memory of the fix-up |
| ByteLog.FixFaithful | sources/src/platform/dune/vmcall_fixup.c:64-131 | on words that share no byte, the fix-up of a list of locations on bytes is the fix-up on the word memory |
| ByteLog.PassRestored | sources/src/platform/dune/vmcall_fixup_restore.c:57-97 | the fix-up of a list of locations on bytes, any two of them the same or 8 bytes apart, followed by the restore gives every overwritten byte its first value and leaves the others as the host left them |
| FixupRestore.RestoreLog.constructor | sources/src/platform/dune/vmcall_fixup_restore.c:53-55 | the log starts empty with room, or with no room if the allocation was refused; it is then usable if and only if requests for no bytes are answered with NULL |
| FixupRestore.RestoreLog.Grow | sources/src/platform/dune/vmcall_fixup_restore.c:32-51 | the records are kept in a larger buffer, or nothing changes |
| FixupRestore.RestoreLog.OnReturn | sources/src/platform/dune/vmcall_fixup_restore.c:57-77 | the record is appended, or lost only if the buffer was full and could not grow |
| FixupRestore.RoomExactly | sources/src/platform/dune/vmcall_fixup_restore.c:32-77 | records stay inside the buffer for all answers if and only if the capacity is not 0; with capacity 0, exactly for those answers that refuse every request |
| Fixup.VmcallHooks.FixupPtr | sources/src/platform/dune/vmcall_fixup.c:64-131 | the pointer becomes canonical where it stands; in memory the change is logged, among the arguments it is not |
| Fixup.VmcallHooks.FixupPtrPtrNullterm | sources/src/platform/dune/vmcall_fixup.c:134-168 | exactly the entries before the terminator are fixed up |
| Fixup.VmcallHooks.FixupIovecArray | sources/src/platform/dune/vmcall_fixup.c:178-206 | exactly the base pointers of the array are fixed up, even if the array overlaps the word that points to it |
| Fixup.VmcallHooks.FixupMsghdr | sources/src/platform/dune/vmcall_fixup.c:208-262 | exactly name, iovec array, its base pointers and control are fixed up, overlaps included |
| Fixup.VmcallHooks.FixupArgs | sources/src/platform/dune/vmcall_fixup.c:270-351 | memory and arguments after the pass, for any table of parameter kinds, with the outcome that PassIsDone describes; the argument after an iovec array is passed over |
| Fixup.VmcallHooks.PreHook | sources/src/platform/dune/vmcall_hooks.c:114-179 | the pass is made for described calls, with the outcome that PassIsDone describes, and nothing happens for others |
| Fixup.VmcallHooks.RestoreOriginals | sources/src/platform/dune/vmcall_fixup_restore.c:79-97 | every logged word gets its first value and the log is empty |
| Fixup.VmcallHooks.PostHook | sources/src/platform/dune/vmcall_hooks.c:181-211 | logged words are restored whatever the host wrote, all others are as the host left them |
| Fixup.VmcallHooks.Call | sources/src/platform/dune/vmcall_hooks.c:114-211 | a whole call: every rewritten word is back unless its record was lost, none is lost unless the log was refused room, and every other word is as the host left it |
| FirstCall.CallOnAlias | sources/src/platform/dune/vmcall_hooks.c:114-211 | from nothing, a call with an alias as base pointer of an iovec is reached: the pointer is rewritten to the canonical address and, if nothing is refused, back afterwards |
| Format.DigitsRoundTrip | sources/src/common/printf_nomalloc.c:88-106 | reading the numeral back gives the number, in base 10 and 16, with no leading zero |
| Format.DigitsUnique | sources/src/common/printf_nomalloc.c:88-106 | the numeral is the only one without leading zeros that has its value |
| Format.IntRoundTrip | sources/src/common/printf_nomalloc.c:53-86 | reading a signed numeral back gives the number, with no leading zero |
| Format.PaddedLength | sources/src/common/printf_nomalloc.c:213-236 | a field is as long as the larger of width and text, with the text at the end it is justified to and only padding elsewhere |
| Format.RenderAppend | sources/src/common/printf_nomalloc.c:239-304 | formatting a concatenation is formatting the parts, the second with the arguments the first left over |
| Format.RenderPlain | sources/src/common/printf_nomalloc.c:243-248 | a format without conversions is its own text |
| Format.PrintStr | sources/src/common/printf_nomalloc.c:43-51 | the characters of the string, in place, and nothing below changes |
| Format.CountDigits | sources/src/common/printf_nomalloc.c:91-96 | the first loop moves as far as the numeral is long |
| Format.PrintUint | sources/src/common/printf_nomalloc.c:88-106 | writing backwards from there leaves exactly the numeral in the buffer |
| Format.PrintInt | sources/src/common/printf_nomalloc.c:53-86 | the signed numeral, for every value but the smallest |
| Format.Pad | sources/src/common/printf_nomalloc.c:213-234 | padding in place, moving the text when it is right-justified, gives the padded field |
| Format.HandleFormat | sources/src/common/printf_nomalloc.c:148-237 | one conversion writes exactly its field and takes exactly its arguments; FormatMeaning.ConversionMeaning says what the field is |
| Format.ReadModifiers | sources/src/common/printf_nomalloc.c:251-296 | the modifier loop stops where the recursive parser does, with the same modifiers |
| Format.DoVsprintf | sources/src/common/printf_nomalloc.c:239-304 | in a large enough buffer, exactly the text of the pure formatter, its length and a terminator |
| FormatMeaning.WordMeaning | sources/src/common/printf_nomalloc.c:148-211 | for every word: `%u`, `%x`, `%X`, `%d`, `%i` and `%p` print a numeral that reads as the argument modulo 2^32 or 2^64, or as its two's complement, without leading zeros, `%c` its low byte; on which conversions and words the code does not survive |
| FormatMeaning.ModifiedMeans | sources/src/common/printf_nomalloc.c:251-296 | for any modifiers in any order: which of them the code survives, and that `-` justifies to the left, a zero before other digits pads with zeros, the digits or `*` give the width, and `l` and `z` the length |
| FormatMeaning.ConversionMeaning | sources/src/common/printf_nomalloc.c:108-304 | on the format string itself, `%`, any modifiers and a specifier: exactly when the code survives, which arguments are taken, what the text stands for when read back, how wide the field is and how it is padded |

## Left out

- Processor and host: entering Dune, page-fault and fork handling, assembly, and the host's own system calls; a call of the host is the set of words it writes.
- sysmalloc and posix_memalign: symbol lookup in libc; the system allocator is an argument of each operation.
- Threads: each mutex section is one atomic step, as in the default single-threaded build.
- Rumprun: its platform files are not part of the build.
- Output: logging, statistics, dumps, `vremap_diag`, and writing the formatted text to a file.
- The brk workaround of the post-hook and the tracing filters.
- Fixup.VmcallHooks.FixupArgs: does not model the counts of failures that the fix-up functions return, because no caller reads them.
- Dangless.DanglessMalloc.VremapResolve: values on which `pt_paddr2vaddr` fails its assertion are excluded, because the call does not return; Fixup.RewrittenExactly says which those are.
- Fixup.VmcallHooks.FixupPtr: as for VremapResolve, values on which the assertion fails are excluded, in every function of the fix-up.
- PageTable.PageTables.PtUnmapPage: addresses are below 2^48, and the TLB caches 4K translations; a processor that caches a huge page in one entry drops the whole of it.
- Fixup.VmcallHooks.FixupPtrPtrNullterm: the memory behind an array whose pointer is valid is readable up to its terminator; the code would fault on memory that is not.
- Fixup.VmcallHooks.FixupIovecArray: the iovecs behind a valid array pointer are readable; the code would fault on memory that is not.
- Fixup.VmcallHooks.FixupMsghdr: requires that the iovec count is not a word the fix-up would rewrite, by Fixup.WordKept the exact condition under which no fix-up changes it.
- Fixup.VmcallHooks.PreHook: describes memory and arguments only; tracing, statistics and fork handling are not modelled.
- Fixup.VmcallHooks.Call: the memory an argument leads to is readable, as for the functions it calls.
- Chart.ChartLayout: addresses and lengths are counted in 4K pages, of which all of them are multiples; the region list is a sequence whose last element is the current region.
- PageTable.PageTables.PtMapPage: mapping a 4K page over a huge mapping is not modelled; the assertion forbids it.
- PageTable.PageTables.PpZallocOne: table memory is a map from frame numbers to tables, apart from the memory of the heap.
- Format.DoVsprintf: field widths are unbounded integers, and the arguments arrive as a sequence of words and strings.
- Format.PrintUint: the division step is written on unbounded integers, which for 64-bit words is the same.
