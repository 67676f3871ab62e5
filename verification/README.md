# Address ranges, page tables and physical pages: a verified model

This project models the memory management of a small AMD64 kernel and proves what it is for. It covers
four components.

1. **The threaded red-black tree of address ranges** (`experiments/rbtree.c`), the prototype of the
   virtual memory manager. One structure carries a red-black tree with the colour in the low bit of
   the left child pointer, a circular list that threads the nodes in order, and a pool of slots in
   pages with a free list threaded through dead nodes. `Ranges`, `RbTree`, `RbInsert` and `RbDelete`
   hold the tree as a value and the theorems about balance, order and contents. `RbMemory` says what
   the raw fields denote. `RbHeap` is the class `RangeTree`, whose methods update those fields in
   place and are proved against the value functions. `RbSearch` is about the two queries, `RbHeight`
   about height, recursion depth and path lengths, `RbRuns` about whole runs.
2. **The four-level page tables** (`kernel/src/system/system_paging.c`). `Amd64` has the entry bits,
   `PageTables` the hardware walk as an independent specification (section 5.3 of the AMD64
   Architecture Programmer's Manual Volume 2, section 4.5 of the Intel SDM Volume 3A), `PageMap`
   mapping and unmapping, `LargePages` what happens when a large page is in the way, `OtherRoots` what
   one root's operations do to another root, `PageRuns` whole runs, `PageClone` what a deep copy is,
   and `Paging` the class `PageTableMemory` that updates the tables in place.
3. **The physical page allocator of one region** (`kernel/src/system/system_physical_allocator.c`):
   `BitWords`, `PhysicalAllocator` (the class `PageAllocator`), `AllocatorRuns`, and `RegionMemory`,
   where the allocator's own words and the pages it manages are bytes of one memory.
4. **The zones over all regions** (`kernel/src/system/system_paging.c`): `Zones` and `ZoneRuns` on
   values, `ZoneLists` with the class `PhysicalZones`, three intrusive lists that end in a sentinel
   pointing to itself.

`KernelRuns` puts the page tables on top of the zones: runs of requests, releases, mappings, unmappings
and clones in which the tables are made of the pages that the zones hand out.

`Options` and `Sequences` are small helpers.

Conventions: `kpanic` and a failing `kassert` are an explicit result (`None`, `false`, `Panicked`)
where a caller can run into them, and are proved never to happen elsewhere. The outcome of asking for a
new page of tree slots is the parameter `pageOk`. Integer widths matter in four places and are written
out: the end of a range wraps in 64 bits, the page offset is a product in 32 bits, entries are 64-bit
vectors, and bitmap words have 64 bits.

What the proofs say about the code beyond "it works":

- The overlap test looks at one search path only, yet answers for the whole tree
  (`RbInsert.HelperStatus`).
- The product `offset * SYSTEM_PAGE_SIZE` is taken in 32 bits. An allocated page can be freed again
  exactly when its index is below 2^20 (`AllocatorRuns.AllocThenFree`). Fresh regions never share a
  page, and never hand out their own metadata, if and only if none has more than 2^20 pages: beyond
  that, some run of allocations hands out a metadata page (`AllocatorRuns.SharesExactly`, and
  `ZoneRuns.ZonesShareExactly` for whole memory maps). With 2^20 + 1 pages the first allocation
  already returns the allocator's own header (`AllocatorRuns.OnePageTooMany`).
- `system_paging_entry` does not test the page-size bit. Mapping, and likewise unmapping, is a point
  update of the translation exactly when the hardware walk meets no large page and no reserved bit
  (`LargePages.MapExactly`, `LargePages.UnmapExactly`). Below a 2 MiB page, mapping overwrites a word of
  the page itself (`PageMap.MapUnderLargePage`, with a concrete table in `LargePages.LargePageExample`).
- Mapping and unmapping through one root, whatever they store, leave every translation of another root
  as it was exactly when the descent creates no table in a lowest-level table of that root and does not
  end at one of its tables (`OtherRoots.SparesExactly`). Without large pages that is so whenever the roots
  share no table (`OtherRoots.SmallIsHarmless`). With large pages it can fail even for a clone and its
  source: in `OtherRoots.CloneExample`, mapping or unmapping a page in the clone changes its translation in
  the source.
- When a table is cloned, the hardware finds the copy behind a redirected entry exactly if the entry's
  pointer was below 2^48 (`Amd64.RedirectExactly`): the kernel keeps the pointer bits above its own mask.
- The list head of an empty zone is null, and the walk goes through it: a 16 MB or 4 GB request, and a
  normal request that has exhausted everything else, end in `NullPointer` exactly in that case
  (`Zones.RequestCorrect`, `ZoneLists.PhysicalZones.Heads`).

## Model

| member | source | states |
|---|---|---|
| `Ranges.OverlapIsSharedAddress` | experiments/rbtree.c:40-56 | On valid ranges the wrapping test is exact: it answers whether some address is in both ranges. |
| `Ranges.ValidExactly` | experiments/rbtree.c:40-50 | A range is valid if and only if it covers an address and its end is representable in 64 bits. |
| `Ranges.CompareExactly` | experiments/rbtree.c:24-38 | Comparison is zero for equal ranges only, and otherwise decided by the starts, and for equal starts by the lengths. |
| `Ranges.CompareDisjoint` | experiments/rbtree.c:24-38 | Of two disjoint ranges, the comparison says which one lies below the other, and is never zero; so the assertion after the overlap test in an insertion cannot fail. |
| `RbTree.RotateKeepsOrder` | experiments/rbtree.c:178-192 | A rotation keeps the in-order sequences of nodes and of ranges. |
| `RbTree.DoubleRotateKeepsOrder` | experiments/rbtree.c:194-205 | So does a double rotation. |
| `RbInsert.FixUpRestores` | experiments/rbtree.c:370-392 | After an insertion below one child, the fix-up keeps the black height and leaves at most one red-red pair, at the returned root and only if that root was red before. |
| `RbInsert.FixUpKeepsOrder` | experiments/rbtree.c:370-392 | The fix-up keeps the in-order sequences of nodes and ranges. |
| `RbInsert.HelperBalance` | experiments/rbtree.c:394-446 | The same recursive contract at every level of an insertion. |
| `RbInsert.HelperStatus` | experiments/rbtree.c:422-446 | OVERLAP if and only if the range overlaps some stored range anywhere in the tree, OOM only without a slot; in both cases the tree is unchanged. |
| `RbInsert.InsertPosSeparates` | experiments/rbtree.c:431-436 | The search path ends between the stored ranges below the new one and those above it. |
| `RbInsert.HelperContents` | experiments/rbtree.c:394-446 | A successful insertion adds exactly the new node and range, at that position. |
| `RbInsert.InsertCorrect` | experiments/rbtree.c:448-460 | On every well-formed tree and valid range: the result is well-formed; OVERLAP iff some stored range overlaps, OOM iff none does and there is no slot, and then nothing changes; OK adds exactly the range. |
| `RbDelete.FixParentSettles` | experiments/rbtree.c:486-517 | With a black sibling on the tall side: the sibling is not nil, both nodes that are recoloured after the rotation are not nil, and the status contract holds. |
| `RbDelete.RedSiblingReduction` | experiments/rbtree.c:481-484 | Rotating a red sibling away leaves a red parent that is short by the same amount, with a black sibling. |
| `RbDelete.FixUpSettles` | experiments/rbtree.c:472-523 | OK means the black height is that before the deletion; FAIL means exactly one less and a root that is not red; a red root only where there was one. |
| `RbDelete.HelperSettles` | experiments/rbtree.c:525-589 | The same status contract at every level of every deletion, whether or not the range is present. |
| `RbDelete.FindCorrect` | experiments/rbtree.c:539-576 | The search path finds a range if and only if it is stored. |
| `RbDelete.RightmostIsLast` | experiments/rbtree.c:563-570 | The heir is the last node of the left subtree, and deleting its range there frees that very node. |
| `RbDelete.HelperAbsent` | experiments/rbtree.c:525-589 | Deleting a range that is not found changes nothing and reports OK. |
| `RbDelete.HelperContents` | experiments/rbtree.c:525-589 | Deleting a present range removes exactly it from the contents and exactly one node from the nodes: its own, or its heir's when it has two children. |
| `RbDelete.DeleteCorrect` | experiments/rbtree.c:591-600 | On every well-formed tree: black root, no red-red pair, equal black counts, disjoint ascending ranges, and contents exactly the old ones minus the range; unchanged if it was absent. |
| `RbMemory.TaggedWord` | experiments/rbtree.c:104-143 | Colour and left child share a word, and each store is read back and leaves the other alone. |
| `RbMemory.SlotFits` | experiments/rbtree.c:228-239 | Every slot lies inside its page behind the header, is aligned, and is none of NULL, nil and the list sentinel. |
| `RbMemory.SlotInjective` | experiments/rbtree.c:282-293 | No slot is handed out twice by carving. |
| `RbMemory.SpliceThreads` | experiments/rbtree.c:207-219 | Splicing next to the anchor that the recursion passes down puts the node at exactly the position where the tree has it. |
| `RbMemory.UnlinkThreads` | experiments/rbtree.c:221-226 | Unlinking a node leaves the list of all others, in order, in both directions. |
| `RbMemory.TakeConserves` | experiments/rbtree.c:272-307 | Taking a slot keeps the handed-out slots the disjoint union of tree and free list. |
| `RbMemory.FreeConserves` | experiments/rbtree.c:309-323 | So does freeing one. |
| `RbMemory.FreedOrderIsAll` | experiments/rbtree.c:316-322 | The recursive free visits every node of the tree exactly once. |
| `RbHeap.RangeTree.constructor` | experiments/rbtree.c:259-270 | With a first page, a zeroed header becomes a valid empty tree with no slot handed out. |
| `RbHeap.RangeTree.Rotate` | experiments/rbtree.c:178-192 | The stores turn the memory of a tree into the memory of the rotated tree and touch only its nodes. |
| `RbHeap.RangeTree.DoubleRotate` | experiments/rbtree.c:194-205 | The same for the double rotation. |
| `RbHeap.RangeTree.ColorFlip` | experiments/rbtree.c:163-176 | The same for the colour flip, nil children included. |
| `RbHeap.RangeTree.InsertFixUp` | experiments/rbtree.c:370-392 | The pointer code refines the fix-up on trees. |
| `RbHeap.RangeTree.NodeMake` | experiments/rbtree.c:272-307 | The node comes from the free list if that is not empty, else from the current page, else from a new page; it is null if and only if the free list is empty, all 84 slots of the current page are in use, and no page can be had, and then nothing changes. |
| `RbHeap.RangeTree.InsertHelper` | experiments/rbtree.c:394-446 | Refines the insertion on trees, threads the new node at its in-order position, takes exactly one slot, and leaves every field as it was unless the status is OK; the calls it makes are counted. |
| `RbHeap.RangeTree.Insert` | experiments/rbtree.c:448-460 | Keeps all four invariants; OVERLAP iff some stored range overlaps; OOM iff none does, the free list is empty, all 84 slots of the current page are in use, and no page can be had; otherwise exactly the new range is added and exactly one slot taken; at most 2 log2(n + 1) recursive calls besides the last. |
| `RbHeap.RangeTree.NodeFree` | experiments/rbtree.c:309-323 | The free list grows by the node, or by all nodes of the subtree, in the order they are visited. |
| `RbHeap.RangeTree.FixParent` | experiments/rbtree.c:486-517 | The pointer code refines the part of the fix-up behind the red-sibling reduction, and never touches nil. |
| `RbHeap.RangeTree.DeleteFixUp` | experiments/rbtree.c:472-523 | The pointer code refines the fix-up after a deletion. |
| `RbHeap.RangeTree.DeleteLeaf` | experiments/rbtree.c:540-561 | A node with at most one child gives way to that child, leaves the list, and is pushed on the free list. |
| `RbHeap.RangeTree.FindHeir` | experiments/rbtree.c:563-566 | The loop ends at the rightmost node of the left subtree, after fewer steps than that subtree is high. |
| `RbHeap.RangeTree.HeirPrecedes` | experiments/rbtree.c:568-570 | The heir's right neighbour on the list is the node itself: the assertion never fails. |
| `RbHeap.RangeTree.DeleteHelper` | experiments/rbtree.c:525-589 | Refines the deletion on trees, with the list and the free list changed by exactly the freed node, or not at all; its calls and the steps of its heir loops are counted. |
| `RbHeap.RangeTree.Delete` | experiments/rbtree.c:591-600 | Keeps all four invariants; an absent range changes nothing; a present one is removed, and exactly one slot goes back to the free list; at most 2 log2(n + 1) recursive calls besides the last, and as many steps to the heir. |
| `RbHeap.RangeTree.Clear` | experiments/rbtree.c:351-357 | Leaves a valid empty tree, with every slot ever handed out on the free list, once. |
| `RbHeap.RangeTree.FindPrevByStart` | experiments/rbtree.c:602-620 | Returns the node with the greatest start strictly below the argument, as a scan of the list would, and nil exactly when there is none, after at most 2 log2(n + 1) steps. |
| `RbHeap.RangeTree.FindNextByStart` | experiments/rbtree.c:622-640 | Returns the node with the least start strictly above the argument, and nil exactly when there is none, after at most 2 log2(n + 1) steps. |
| `RbHeap.RangeTree.ListIsInOrder` | experiments/rbtree.c:642-669 | In every valid state the circular list, read from the sentinel, is the tree's node sequence in both directions, and neighbouring ranges ascend. |
| `RbHeap.RangeTree.ListValidate` | experiments/rbtree.c:642-669 | All assertions of the validation hold in every valid state. |
| `RbRuns.StepRefines` | experiments/rbtree.c:351-600 | Every insertion, deletion or clearing is the obvious step on the set of stored ranges. |
| `RbRuns.RunRefinesSet` | experiments/rbtree.c:351-600 | After any run of operations from the empty tree, the tree is well-formed and stores exactly the set that the operations describe. |
| `RbRuns.RunStaysDisjoint` | experiments/rbtree.c:351-600 | In every reachable tree, no address is covered by two different stored ranges. |
| `RbHeight.HeightIsLogarithmic` | experiments/rbtree.c:370-600 | A well-formed tree of n nodes and height h satisfies 2^ceil(h/2) <= n + 1. |
| `RbHeight.InsertCallsByHeight` | experiments/rbtree.c:394-446 | An insertion makes at most height + 1 calls of the recursive helper; `InsertHelper` counts its calls and returns exactly this number. |
| `RbHeight.DeleteCallsByHeight` | experiments/rbtree.c:525-589 | A deletion makes at most height + 1 calls of the recursive helper; `DeleteHelper` counts its calls and returns exactly this number. |
| `RbHeight.DeleteHopsByHeight` | experiments/rbtree.c:563-566 | All heir loops of one deletion together take at most height steps, because the heir has no heir of its own. |
| `RbHeight.StepsByHeight` | experiments/rbtree.c:602-640 | Either search by start takes at most height steps. |
| `RbRuns.RunDepth` | experiments/rbtree.c:394-640 | In every reachable tree of n nodes, insertion and deletion make at most 2 log2(n + 1) recursive calls besides the last one, and the heir loops of a deletion and each of the two find loops take at most 2 log2(n + 1) steps. |
| `Amd64.LeafFields` | kernel/src/system/system_paging.c:176-200 | A leaf entry is present, has exactly the requested write, user and execute rights, and holds the requested frame if and only if that fits the address mask. |
| `Amd64.EntryBits` | kernel/src/system/system_paging.c:137-158 | In numbers: bit 0 is the present bit, bit 7 the page-size bit, bits 12 to 51 the pointer for the hardware, bits 12 to 47 for the kernel. |
| `Amd64.LeafBits` | kernel/src/system/system_paging.c:176-200 | In numbers: a leaf has bit 0, bit 1 iff write is requested, bit 2 iff user, bit 63 iff not execute, the frame in bits 12 to 47, and nothing else. |
| `Amd64.ParentIsWritable` | kernel/src/system/system_paging.c:161-174 | In numbers: the entry of a new table is its address with bits 0 and 1. |
| `Amd64.RedirectedBits` | kernel/src/system/system_paging.c:286-292 | In numbers: redirecting replaces bits 12 to 47. |
| `Amd64.ParentFields` | kernel/src/system/system_paging.c:161-174 | An entry for a new table points to it and carries only P and RW. |
| `Amd64.UpdateFields` | kernel/src/system/system_paging.c:286-292 | Redirecting an entry changes the frame and nothing else. |
| `Amd64.IndicesAreFields` | kernel/src/system/system_paging.c:223-247 | The four indices, top level first, are bits 39 to 47, 30 to 38, 21 to 29 and 12 to 20 of the address. |
| `Amd64.IndicesInjective` | kernel/src/system/system_paging.c:223-247 | Canonical page-aligned addresses have the same four indices only if they are equal. |
| `PageMap.EntryTableCount` | kernel/src/system/system_paging.c:215-250 | Without a large page on the path, finding the lowest table takes exactly as many pages as tables are missing on the path, and panics exactly when there are fewer. |
| `PageMap.PagesUsed` | kernel/src/system/system_paging.c:252-268 | The same for mapping and for unmapping, which creates tables too. |
| `PageMap.PanicsExactly` | kernel/src/system/system_paging.c:202-268 | In numbers: with one, two or three tables missing on the path, mapping and unmapping panic if and only if fewer pages are free. |
| `PageMap.MapCorrect` | kernel/src/system/system_paging.c:252-260 | Where the walk meets no large page, mapping is a point update of it: the page gets the requested frame (if and only if it fits the mask) and rights, all other pages translate as before, the tables stay a tree apart from the free pages, only tables of this root and free pages are written, and every page that was taken has become a table. |
| `PageMap.UnmapCorrect` | kernel/src/system/system_paging.c:262-268 | Likewise unmapping makes the page absent and is otherwise the same point update. |
| `PageMap.OtherPages` | kernel/src/system/system_paging.c:252-268 | In terms of addresses: every other canonical page translates as before. |
| `PageMap.MapThenUnmap` | kernel/src/system/system_paging.c:252-268 | Mapping an absent page and unmapping it restores the whole translation; the unmapping needs no page. |
| `PageMap.MapUnderLargePage` | kernel/src/system/system_paging.c:233-260 | Below a 2 MiB page, mapping never fails and overwrites a word of the page itself; every translation stays as it was if the page does not begin with a table of the root. |
| `LargePages.MapExactly` | kernel/src/system/system_paging.c:252-260 | Mapping is a point update, with the requested page and rights at the address and every other translation as before, if and only if the walk meets no large page and no reserved bit. |
| `LargePages.UnmapExactly` | kernel/src/system/system_paging.c:262-268 | Unmapping is a point update, with the page absent and every other translation as before, if and only if the walk meets no large page and no reserved bit. |
| `LargePages.StoreUnderLarge` | kernel/src/system/system_paging.c:215-268 | What a store at the end of the descent does to a walk that meets a large page: nothing, unless it hits a word that this walk reads; then the walk goes on from the stored entry. |
| `LargePages.SelfExample` | kernel/src/system/system_paging.c:233-268 | A concrete table with a 2 MiB page that begins with its own page directory: mapping and unmapping a page inside it do change translations. |
| `LargePages.LargePageExample` | kernel/src/system/system_paging.c:233-260 | A concrete table with a 2 MiB page: mapping a page inside it does not fail, and has no effect on the page's translation. |
| `PageRuns.FreshRoot` | kernel/src/system/system_paging.c:215-260 | In an empty root everything is absent, and any address can be mapped if and only if three pages are free. |
| `PageRuns.RunRefines` | kernel/src/system/system_paging.c:215-268 | After any run of mappings and unmappings, every canonical page that no large page covers translates as the last operation on it says, and as before the run if there was none; a page under a large page translates as before. An operation under a large page must change no translation of the root, for which `OtherRoots.SparesExactly` has the exact condition. |
| `OtherRoots.DescentOther` | kernel/src/system/system_paging.c:215-250 | The descent for a page never takes a translation away from any root, and adds one exactly when it creates a table in a lowest-level table of that root. |
| `OtherRoots.SparesExactly` | kernel/src/system/system_paging.c:215-268 | Mapping and unmapping a page through any root leave every translation of a given root as it was, whatever is stored, if and only if the descent creates no table in a lowest-level table of that root and does not end at one of its tables. |
| `OtherRoots.SmallIsHarmless` | kernel/src/system/system_paging.c:215-268 | That is so for every page that no large page covers, if the two roots share no table. |
| `OtherRoots.StraysAreHarmless` | kernel/src/system/system_paging.c:215-268 | It is so under a large page if what the descent takes for tables is no table of the given root. |
| `OtherRoots.RunsSpareExactly` | kernel/src/system/system_paging.c:215-268 | For any sequence of pages: no step changes a translation of the given root, whatever is stored on the way, if and only if every page meets the condition when its turn comes. |
| `OtherRoots.CloneExample` | kernel/src/system/system_paging.c:215-360 | A concrete tree of tables and its clone, two good roots that share no table and translate alike, where mapping or unmapping a page in the clone changes its translation in the source. |
| `PageRuns.RunSparesOther` | kernel/src/system/system_paging.c:215-268 | Any sequence of mappings and unmappings, each of which meets the condition when its turn comes, leaves every translation of the other root as it was. |
| `PageRuns.SmallRunIsHarmless` | kernel/src/system/system_paging.c:215-268 | A run that meets no large page does so for every root that shares no table with its own. |
| `PageClone.SameWalk` | kernel/src/system/system_paging.c:310-360 | A deep copy gives the same walk for every address: absent, 4 KiB, 2 MiB or 1 GiB, with all flags on the way. |
| `Paging.PageTableMemory.Entry` | kernel/src/system/system_paging.c:215-250 | The in-place descent refines the descent on values. |
| `Paging.PageTableMemory.MapPage` | kernel/src/system/system_paging.c:252-260 | Refines mapping on values; fails exactly when pages run out. |
| `Paging.PageTableMemory.UnmapPage` | kernel/src/system/system_paging.c:262-268 | Refines unmapping on values; fails exactly when pages run out. |
| `Paging.PageTableMemory.CloneEntries` | kernel/src/system/system_paging.c:318-357 | The loops turn a raw copy of a table into a deep copy, with the source intact and one page taken for each table below; they fail exactly when there are fewer pages. |
| `Paging.PageTableMemory.CloneTable` | kernel/src/system/system_paging.c:310-360 | Every address walks in the clone as in the source; everything but formerly free pages is unchanged; every table of the clone is a page just taken, and they form a tree; every page taken is a table of the clone, or a copy of what the kernel finds behind a top-level entry with the reserved bit; every present top-level entry points to a page just taken; it fails only when no page is left. |
| `Amd64.RedirectExactly` | kernel/src/system/system_paging.c:286-292 | The hardware follows a redirected entry to the new page if and only if the entry's pointer fits the kernel's address mask. |
| `Paging.GoodCanBeCloned` | kernel/src/system/system_paging.c:310-360 | A tree of tables that mapping and unmapping keep can be cloned if and only if whatever the kernel takes for tables behind top-level entries with the reserved bit can be copied. |
| `Paging.CloneIsSeparate` | kernel/src/system/system_paging.c:294-360 | After cloning, source and clone share no table and the source translates as before. |
| `Paging.CloneThenRun` | kernel/src/system/system_paging.c:215-360 | Whatever is then mapped and unmapped in the clone, under the exact condition of `OtherRoots.SparesExactly` for each operation, the source translates as it did before it was cloned. |
| `Paging.PageTableMemory.CloneForUse` | kernel/src/system/system_paging.c:215-360 | From a good tree of tables alone: the clone takes no page that is not one of its tables (or behind a reserved bit), fails only when no page is left, translates as the source, shares no table with it, and no later run in the clone that meets the condition of `OtherRoots.SparesExactly` changes the source's translations. |
| `BitWords.MaskOrder` | kernel/src/system/system_physical_allocator.c:33-40 | The masks of the bits are the powers of two in order. |
| `BitWords.SetBitTest` | kernel/src/system/system_physical_allocator.c:63-68 | Setting a bit of a 64-bit word sets that bit and no other. |
| `BitWords.ClearBitTest` | kernel/src/system/system_physical_allocator.c:154-156 | Clearing a bit clears that bit and no other. |
| `PhysicalAllocator.SizesInBytes` | kernel/src/system/system_physical_allocator.c:47-61 | In numbers: 64 bytes of header, 4 bytes a page for the stack, and the least number of 8-byte words with a bit a page for the bitmap; the metadata pages are those that these bytes reach, or one more. |
| `PhysicalAllocator.MetadataFits` | kernel/src/system/system_physical_allocator.c:47-61 | For every page count up to U32_MAX, header, bitmap and stack lie one after the other inside the metadata pages, which are at most all pages, and fewer if there is more than one. |
| `PhysicalAllocator.WordsFit` | kernel/src/system/system_physical_allocator.c:70-88 | Every word of bitmap and stack is at an address inside the metadata pages, without overlap, if these are as many as setup computes; and setup computes at most one more than necessary. |
| `PhysicalAllocator.AddressOfPage` | kernel/src/system/system_physical_allocator.c:126-128 | The address handed out is in the region, so the assertion holds; it is the page's own if and only if the page index is below 2^20. |
| `PhysicalAllocator.PopAgrees` | kernel/src/system/system_physical_allocator.c:119-124 | Popping and marking keeps bitmap and stack in agreement, and the stack free of duplicates. |
| `PhysicalAllocator.PushAgrees` | kernel/src/system/system_physical_allocator.c:147-156 | So does pushing and clearing. |
| `PhysicalAllocator.PageAllocator.constructor` | kernel/src/system/system_physical_allocator.c:70-108 | The metadata pages are used, all others are free in ascending order, bitmap and stack agree, and with enough metadata pages all their words are placed inside these. |
| `RegionMemory.SparedExactly` | kernel/src/system/system_physical_allocator.c:70-88 | In one memory of bytes: writing a page leaves the header, the bitmap and the stack of a region as they are if and only if the page lies outside the bytes that they occupy. |
| `RegionMemory.BooksAreSafeExactly` | kernel/src/system/system_physical_allocator.c:70-157 | In every run from setup, whatever an allocation hands out can be written without changing a byte of any region's header, bitmap or stack, if and only if no region has more than 2^20 pages. |
| `PhysicalAllocator.PageAllocator.Allocate` | kernel/src/system/system_physical_allocator.c:112-129 | Fails, changing nothing, exactly when no page is free; else takes the last free page p, returns the base plus 4096 p modulo 2^32, and changes nothing else; bitmap and stack still agree. |
| `PhysicalAllocator.PageAllocator.IsFree` | kernel/src/system/system_physical_allocator.c:131-138 | The bitmap answers whether the page is on the stack. |
| `PhysicalAllocator.PageAllocator.FreePage` | kernel/src/system/system_physical_allocator.c:140-157 | Succeeds if and only if the address is inside the region and its page is not free, so the assertions on the capacity never fail by themselves; the page becomes the last free one; otherwise nothing changes. |
| `Sequences.Pigeonhole` | kernel/src/system/system_physical_allocator.c:142-152 | A stack without duplicates that lacks one page has room for it. |
| `AllocatorRuns.AllocThenFree` | kernel/src/system/system_physical_allocator.c:112-157 | Freeing what was just allocated restores the region if and only if the page index is below 2^20. |
| `AllocatorRuns.FirstAllocation` | kernel/src/system/system_physical_allocator.c:90-129 | The first allocation of a fresh region returns the last page's address if and only if there are at most 2^20 pages. |
| `AllocatorRuns.OnePageTooMany` | kernel/src/system/system_physical_allocator.c:126-128 | With 2^20 + 1 pages it returns the base of the region, where the allocator keeps its own header. |
| `AllocatorRuns.TakeKeeps` | kernel/src/system/system_physical_allocator.c:112-129 | Every usable page is either free or outstanding under its own address; an allocation keeps this, and its result was not outstanding. |
| `AllocatorRuns.GiveKeeps` | kernel/src/system/system_physical_allocator.c:140-157 | Of all regions, exactly the one that contains an outstanding address takes it back, and the accounts still balance. |
| `AllocatorRuns.RunKeepsAccounts` | kernel/src/system/system_physical_allocator.c:112-157 | The accounts balance after every run that frees only outstanding addresses. |
| `AllocatorRuns.SharesExactly` | kernel/src/system/system_physical_allocator.c:70-157 | In every run from setup, each allocation returns an address that is not outstanding, in range, at a multiple of the page size from the base, and behind the metadata, if and only if no region has more than 2^20 pages. |
| `AllocatorRuns.SharingRun` | kernel/src/system/system_physical_allocator.c:112-129 | For every larger region, a run of allocations after which the next one hands out a metadata page. |
| `Zones.RequestCorrect` | kernel/src/system/system_paging.c:65-113 | A request succeeds if and only if some region that may serve it has a free page: any region for a normal one, those of the zone otherwise. It goes through a null list head exactly when it fails and the last list it walks is empty. The address is below the limit, and only the region it comes from changes. |
| `Zones.RequestTakesFirst` | kernel/src/system/system_paging.c:74-108 | A request for a zone is served by the first region of the zone's list with a free page; a normal one by the first such region at or behind the first one outside the 16 MB zone, and only if there is none, by the first of the 16 MB zone. |
| `Zones.FirstFreeAt` | kernel/src/system/system_paging.c:74-108 | A walk takes its page from the first region of its order that has one. |
| `Zones.OwnerUnique` | kernel/src/system/system_paging.c:121-132 | At most one region contains an address, so the search on release cannot stop at a wrong one. |
| `Zones.ReleaseExactly` | kernel/src/system/system_paging.c:115-135 | A release succeeds if and only if some region contains the address and its page is not free there; the page becomes free in that region and nothing else changes; otherwise nothing changes. |
| `Zones.RequestThenRelease` | kernel/src/system/system_paging.c:65-135 | Releasing what a request returned gives it back to the region it came from and restores the state, if and only if the page index is below 2^20. |
| `Zones.SetupIsMade` | kernel/src/system/system_paging.c:384-462 | The regions are, one for one and in order, those of the usable entries longer than 4096 bytes, each with the entry's base, all its whole pages, and all pages behind the metadata free; a region is in a zone iff its entry ends below 16 MB or 4 GB; the first region outside the 16 MB zone is remembered. |
| `Zones.SetupSound` | kernel/src/system/system_paging.c:384-462 | From every memory map whose usable entries do not overlap: regions that do not overlap, with their metadata inside, zones that end below their limits, and only 16 MB regions before the first one outside. |
| `Zones.Zone` | kernel/src/system/system_paging.c:415-423 | A region is in a zone if and only if its memory-map entry ends below the limit. |
| `ZoneLists.PhysicalZones.SentinelTest` | kernel/src/system/system_paging.c:58-62 | No list node is its own successor, so the self-pointer test recognises exactly the sentinel. |
| `ZoneLists.PhysicalZones.Heads` | kernel/src/system/system_paging.c:454-456 | A list head is null if and only if its zone has no region. |
| `ZoneLists.PhysicalZones.constructor` | kernel/src/system/system_paging.c:364-462 | The three lists built through the moving last pointers contain exactly the regions that `Zones.SetupIsMade` describes, in order, each ending in the sentinel, over fresh allocators that share no memory. |
| `ZoneLists.PhysicalZones.Register` | kernel/src/system/system_paging.c:413-423 | One more allocator is appended to the lists it belongs to, and the first one outside the 16 MB zone is remembered. |
| `ZoneLists.PhysicalZones.SearchAll` | kernel/src/system/system_paging.c:74-83 | The walk takes a page from the first allocator with a free one and changes no other; if there is none, nothing changes. |
| `ZoneLists.PhysicalZones.Search16` | kernel/src/system/system_paging.c:87-96 | The same for the 16 MB list. |
| `ZoneLists.PhysicalZones.Search4` | kernel/src/system/system_paging.c:99-108 | The same for the 4 GB list. |
| `ZoneLists.PhysicalZones.PhysicalAlloc` | kernel/src/system/system_paging.c:65-113 | Refines the request on values, the fall-through from normal to 16 MB and the null list heads included, and keeps all lists and allocators valid. |
| `ZoneLists.PhysicalZones.PhysicalFree` | kernel/src/system/system_paging.c:115-135 | Succeeds if and only if some region contains the address and its page is not free there, and then only that page becomes free; a null head is reached iff there is no region; it panics in all other cases, changing nothing. |
| `ZoneRuns.AskStep` | kernel/src/system/system_paging.c:65-113 | In a state whose accounts balance, a request hands out an address that is not outstanding, and they still balance. |
| `ZoneRuns.GiveUpStep` | kernel/src/system/system_paging.c:115-135 | The release of an outstanding address always succeeds, and the accounts still balance. |
| `ZoneRuns.ZonesShareExactly` | kernel/src/system/system_paging.c:65-135 | For every memory map, no region has more than 2^20 pages if and only if the following holds in every state reached from boot by requests and by releases of outstanding addresses: a request returns an address that is not outstanding, aligned, behind the metadata and below its limit; it fails only when all pages that may serve it are outstanding; and every outstanding address can be released. |
| `ZoneRuns.SharingRequests` | kernel/src/system/system_paging.c:65-113 | For every memory map with a larger region, a run of normal requests after which the next one returns an address inside the metadata. |
| `KernelRuns.SupplyIsGood` | kernel/src/system/system_paging.c:202-250 | Whatever pages the zones hand out next, no table of any root in use is among them, so that mapping, unmapping and cloning may take them. |
| `KernelRuns.StepKeeps` | kernel/src/system/system_paging.c:65-360 | Every request, release, use of a page, mapping, unmapping and clone keeps the zones' accounts, keeps every root's tables a tree of outstanding pages, and keeps the roots apart. |
| `KernelRuns.TablesStayHeld` | kernel/src/system/system_paging.c:65-462 | In every state that such a run from boot reaches, with regions of at most 2^20 pages, every table of every root is an outstanding page behind its region's metadata, is not free, belongs to no other root, and is returned by no request. |
| `KernelRuns.TablesDoNotStayHeld` | kernel/src/system/system_paging.c:65-462 | For every memory map with a larger region, a run after which taking the next page for a table breaks that. |

## Left out

- Serial and port I/O, interrupts, inline assembly, CR3, MSRs and `invlpg`: hardware effects without a semantics to prove against.
- The GDT, IDT and ACPI encoders, number formatting, `memcpy` and `memmove`: they keep no state from one call to the next. Copying and zeroing a page are single steps here.
- `make/make.go`, makefiles and linker scripts: build plumbing.
- `rb_print*`, `main`, logging: output only.
- `rb_destroy`: a walk over the page chain that gives pages back to the C heap.
- `kernel/src/system/system_vmm.c`: declarations without behaviour.
- Effective user rights across levels, and the TLB: only leaf rights are stated, and the flags of the entries above are part of the walk's result.
- The offset at which the kernel sees physical memory: a bijection that does not appear; physical pages are named by their address.
- Where the C heap puts the pages of tree slots: they are modelled as consecutive pages; only alignment and distinctness are used. Tag bits are modelled by arithmetic on addresses.
- The class `PageTableMemory` takes pages from a list of distinct frames in any order rather than from an object of the zone layer; on values, `KernelRuns` takes them from the zones. The page table that the boot loader leaves is not among the roots in use there, but it may be cloned.
- The three nested loops of `system_paging_table_clone` are one loop, called at levels 4, 3 and 2.
- PhysicalAllocator.PageAllocator.constructor: bitmap, stack and header are fields of an object with addresses; as bytes of the memory that also holds the managed pages, they are in `RegionMemory`.
- `1 << n` in the bitmap code is modelled by repeated doubling.
- `system_paging_setup` after the lists are built (cloning and loading the page table), and its messages about the executable and the stack.
- Paging.PageTableMemory.CloneTable: not for a table pointer above 2^48, because there the clone's entry does not point to the copy (`Amd64.RedirectExactly`).
- KernelRuns.StepKeeps: an operation below a large page only if what the descent takes for tables is no table of any root in use.
- The return of tables that have become empty: the kernel keeps them.
